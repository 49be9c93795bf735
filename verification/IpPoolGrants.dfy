/**
 * Which address an acquisition grants, told from the lease table and the request alone, and what the table
 * looks like afterwards.
 */
module IpPoolGrants {
  import opened Wire
  import opened IpTable
  import opened IpPool
  import opened IpPoolSafety

  // ----- the addresses of a pool

  /** Neither the gateway nor in use. */
  predicate Free(s: State, r: Range, n: uint32) {
    r.gateway != Some(n) && V4(n) !in s.active
  }

  /** Free, and no row of it is reserved or within its lease. */
  ghost predicate Vacant(s: State, r: Range, n: uint32, q: Request) {
    Free(s, r, n) && forall id :: HasIp(s.table, id, n) ==> !s.table[id].keep && s.table[id].lastLogin + q.lease < q.now
  }

  /** Free, with a row `id` that is not reserved and was last used in the past. */
  ghost predicate Reclaimable(s: State, r: Range, n: uint32, id: nat, q: Request) {
    Free(s, r, n) && HasIp(s.table, id, n) && !s.table[id].keep && s.table[id].lastLogin < q.now
  }

  /** Going up from the cursor, and from the start of the pool behind its end, `n` comes no later than `m`. */
  predicate ComesFirst(cur: uint32, n: uint32, m: uint32) {
    if cur <= n then m < cur || n <= m else m < cur && n <= m
  }

  /**
   * The answer of the scan: the first vacant address from the cursor on; if there is none, the reclaimable one of
   * earliest login; and nothing exactly if there is neither.
   */
  ghost predicate IsScanned(s: State, r: Range, cur: uint32, q: Request, ip: Option<uint32>) {
    && (ip.Some? ==> InPool(r, ip.value))
    && (forall n: uint32 :: InPool(r, n) && Vacant(s, r, n, q) ==>
          ip.Some? && Vacant(s, r, ip.value, q) && ComesFirst(cur, ip.value, n))
    && ((forall n: uint32 :: InPool(r, n) ==> !Vacant(s, r, n, q)) ==>
          && (ip.Some? <==> exists n: uint32, id :: InPool(r, n) && Reclaimable(s, r, n, id, q))
          && (ip.Some? ==>
                exists id :: (Reclaimable(s, r, ip.value, id, q) &&
                              forall n: uint32, j :: InPool(r, n) && Reclaimable(s, r, n, j, q) ==>
                                s.table[id].lastLogin <= s.table[j].lastLogin)))
  }

  lemma {:induction false} RowOf(s: State, n: uint32, id: nat)
    requires WellFormed(s)
    ensures HasIp(s.table, id, n) <==> ByIp(s.table, n) == Some(id)
  {
    if HasIp(s.table, id, n) {
      ByIpIs(s.table, id, n);
    }
  }

  lemma {:induction false} AvailableIffVacant(s: State, r: Range, n: uint32, q: Request)
    requires WellFormed(s)
    ensures Available(s, r, n, q) <==> Vacant(s, r, n, q)
  {
    forall id: nat
      ensures HasIp(s.table, id, n) <==> ByIp(s.table, n) == Some(id)
    {
      RowOf(s, n, id);
    }
  }

  lemma {:induction false} RecyclableIff(s: State, r: Range, n: uint32, id: nat, q: Request)
    requires WellFormed(s) && !Vacant(s, r, n, q)
    ensures Reclaimable(s, r, n, id, q) <==> Recyclable(s, r, n, q) && ByIp(s.table, n) == Some(id)
  {
    RowOf(s, n, id);
    AvailableIffVacant(s, r, n, q);
  }

  /** Nothing is vacant: the answer is the reclaimable address of earliest login. */
  lemma {:induction false} ReclaimedIsScanned(s: State, r: Range, cur: uint32, q: Request)
    requires WellFormed(s) && ValidRange(r) && InPool(r, cur)
    requires forall n: uint32 :: InPool(r, n) ==> !Vacant(s, r, n, q)
    ensures IsScanned(s, r, cur, q, LoopSpec(s, r, cur, q).2) && LoopSpec(s, r, cur, q).1 == r.min
  {
    forall n: uint32 | InPool(r, n)
      ensures !Available(s, r, n, q)
    {
      AvailableIffVacant(s, r, n, q);
    }
    forall n: uint32, id: nat | InPool(r, n)
      ensures Reclaimable(s, r, n, id, q) <==> Recyclable(s, r, n, q) && ByIp(s.table, n) == Some(id)
    {
      RecyclableIff(s, r, n, id, q);
    }
    RecycledIsOldest(s, r, cur, q);
    ScanFindsFirst(s, r, cur, r.max, q);
    ScanFindsFirst(s, r, r.min, cur, q);
    var ip := LoopSpec(s, r, cur, q).2;
    if ip.Some? {
      var id := ByIp(s.table, ip.value).value;
      assert Reclaimable(s, r, ip.value, id, q);
    } else {
      forall n: uint32, id: nat
        ensures !(InPool(r, n) && Reclaimable(s, r, n, id, q))
      {
        assert InPool(r, n) ==> !Recyclable(s, r, n, q);
      }
    }
  }

  lemma {:induction false} VacantIsScanned(s: State, r: Range, cur: uint32, q: Request, n: uint32)
    requires WellFormed(s) && ValidRange(r) && InPool(r, cur) && InPool(r, n) && Vacant(s, r, n, q)
    ensures IsScanned(s, r, cur, q, LoopSpec(s, r, cur, q).2)
            && LoopSpec(s, r, cur, q).2 == Some(LoopSpec(s, r, cur, q).1)
  {
    forall m: uint32
      ensures Available(s, r, m, q) <==> Vacant(s, r, m, q)
    {
      AvailableIffVacant(s, r, m, q);
    }
    AvailableIsPreferred(s, r, cur, q, n);
  }

  lemma {:induction false} LoopIsScanned(s: State, r: Range, cur: uint32, q: Request)
    requires WellFormed(s) && ValidRange(r) && InPool(r, cur)
    ensures IsScanned(s, r, cur, q, LoopSpec(s, r, cur, q).2)
  {
    if n: uint32 :| InPool(r, n) && Vacant(s, r, n, q) {
      VacantIsScanned(s, r, cur, q, n);
    } else {
      ReclaimedIsScanned(s, r, cur, q);
    }
  }

  // ----- a client that reports its MAC

  /** The row bound to the MAC in the group, or without a group if there is none. */
  ghost predicate OwnRow(s: State, group: string, mac: string, id: nat) {
    || IsBound(s.table, id, mac, group)
    || (IsBound(s.table, id, mac, "") && forall j :: !IsBound(s.table, j, mac, group))
  }

  /** Its address may be given: it is in the pool and not in use. */
  predicate Givable(s: State, r: Range, row: Row) {
    row.ip.Some? && r.min <= row.ip.value <= r.max && V4(row.ip.value) !in s.active
  }

  lemma {:induction false} BindingIs(s: State, r: Range, mac: string, id: nat)
    requires WellFormed(s)
    ensures OwnRow(s, r.group, mac, id) <==> Binding(s, r, mac) == Some(id)
  {
    if IsBound(s.table, id, mac, r.group) {
      ByBindingIs(s.table, id, mac, r.group);
    } else if IsBound(s.table, id, mac, "") {
      ByBindingIs(s.table, id, mac, "");
    }
    var own := ByBinding(s.table, mac, r.group);
    assert own.Some? ==> IsBound(s.table, own.value, mac, r.group);
  }

  /** The table without the client's own row. */
  ghost function WithoutOwn(s: State, group: string, mac: string): State {
    s.(table := map id | id in s.table && !OwnRow(s, group, mac, id) :: s.table[id])
  }

  /**
   * A client that reports its MAC is given the address of its own row, if that may be given; is refused if it may
   * not and the row is reserved; and is otherwise served by the scan, without the row.
   */
  lemma {:induction false} ReportedMacIsGiven(s: State, r: Range, cur: uint32, q: Request)
    requires WellFormed(s) && ValidRange(r) && InPool(r, cur) && q.uniqueMac
    ensures var (s', cur', ip) := AcquireSpec(s, r, cur, q);
            && (forall id :: OwnRow(s, r.group, q.mac, id) && Givable(s, r, s.table[id]) ==>
                  ip == s.table[id].ip && cur' == cur)
            && (forall id :: OwnRow(s, r.group, q.mac, id) && !Givable(s, r, s.table[id]) && s.table[id].keep ==>
                  ip.None? && s' == s)
            && ((forall id :: OwnRow(s, r.group, q.mac, id) ==> !Givable(s, r, s.table[id]) && !s.table[id].keep) ==>
                  IsScanned(WithoutOwn(s, r.group, q.mac), r, cur, q, ip))
  {
    forall id: nat
      ensures OwnRow(s, r.group, q.mac, id) <==> Binding(s, r, q.mac) == Some(id)
    {
      BindingIs(s, r, q.mac, id);
    }
    var own := Binding(s, r, q.mac);
    var c := WithoutOwn(s, r.group, q.mac);
    if own.None? {
      assert c.table == s.table;
      LoopIsScanned(s, r, cur, q);
    } else if !Givable(s, r, s.table[own.value]) && !s.table[own.value].keep {
      assert c.table == s.table - {own.value};
      assert c == DelRow(s, own.value);
      LoopIsScanned(c, r, cur, q);
    }
  }

  // ----- a client known by its name

  predicate OfUser(s: State, user: string, group: string, id: nat) {
    id in s.table && s.table[id].user == user && s.table[id].group == group
  }

  function UsersBefore(s: State, user: string, group: string, from: nat, id: nat): set<nat> {
    set j | j in s.table && from <= j < id && OfUser(s, user, group, j)
  }

  /** One of the user's first thirty rows in the group, or of those without a group if there is none. */
  ghost predicate Looked(s: State, group: string, user: string, id: nat) {
    || (OfUser(s, user, group, id) && |UsersBefore(s, user, group, 0, id)| < 30)
    || (OfUser(s, user, "", id) && |UsersBefore(s, user, "", 0, id)| < 30 && forall j :: !OfUser(s, user, group, j))
  }

  /** The client may take the row: unreserved, of no reported MAC, in the pool, and idle or its own. */
  predicate Takeable(s: State, r: Range, row: Row, mac: string) {
    && row.ip.Some? && r.min <= row.ip.value <= r.max && !row.keep && !row.uniqueMac
    && (V4(row.ip.value) in s.active ==> row.mac == mac)
  }

  lemma {:induction false} UserRowsAre(s: State, user: string, group: string, from: nat, id: nat)
    requires WellFormed(s)
    ensures id in UserRows(s, user, group, from) <==> OfUser(s, user, group, id) && from <= id
    decreases s.nextId - from
  {
    if from < s.nextId {
      UserRowsNext(s, user, group, from);
      UserRowsAre(s, user, group, from + 1, id);
    }
  }

  lemma {:induction false} UsersBeforeNext(s: State, user: string, group: string, from: nat, id: nat)
    requires from < id
    ensures |UsersBefore(s, user, group, from, id)|
         == |UsersBefore(s, user, group, from + 1, id)| + if OfUser(s, user, group, from) then 1 else 0
  {
    var rest := UsersBefore(s, user, group, from + 1, id);
    assert from !in rest;
    assert UsersBefore(s, user, group, from, id) == if OfUser(s, user, group, from) then {from} + rest else rest;
  }

  lemma {:induction false} UserRowsNext(s: State, user: string, group: string, from: nat)
    requires from < s.nextId
    ensures UserRows(s, user, group, from)
         == (if OfUser(s, user, group, from) then [from] else []) + UserRows(s, user, group, from + 1)
  {
  }

  /** A row's place in the list is the number of the user's rows before it. */
  lemma {:induction false} PlaceOf(s: State, user: string, group: string, from: nat, k: nat)
    requires k < |UserRows(s, user, group, from)|
    ensures var id := UserRows(s, user, group, from)[k];
            from <= id && OfUser(s, user, group, id) && |UsersBefore(s, user, group, from, id)| == k
    decreases s.nextId - from
  {
    UserRowsNext(s, user, group, from);
    var own := OfUser(s, user, group, from);
    if own && k == 0 {
      assert UsersBefore(s, user, group, from, from) == {};
    } else {
      var j := if own then k - 1 else k;
      PlaceOf(s, user, group, from + 1, j);
      UsersBeforeNext(s, user, group, from, UserRows(s, user, group, from + 1)[j]);
    }
  }

  lemma {:induction false} FirstRowsAre(s: State, user: string, group: string, id: nat)
    requires WellFormed(s)
    ensures id in FirstRows(UserRows(s, user, group, 0))
       <==> OfUser(s, user, group, id) && |UsersBefore(s, user, group, 0, id)| < 30
  {
    var start := 0;
    var ids := UserRows(s, user, group, start);
    UserRowsAre(s, user, group, start, id);
    if id in ids {
      var k :| 0 <= k < |ids| && ids[k] == id;
      PlaceOf(s, user, group, start, k);
      if id in FirstRows(ids) {
        var j :| 0 <= j < |FirstRows(ids)| && FirstRows(ids)[j] == id;
        PlaceOf(s, user, group, start, j);
      } else {
        assert forall j :: 0 <= j < |FirstRows(ids)| ==> FirstRows(ids)[j] == ids[j];
        assert k >= |FirstRows(ids)|;
      }
    }
  }

  lemma {:induction false} NoRowsIff(s: State, user: string, group: string)
    requires WellFormed(s)
    ensures FirstRows(UserRows(s, user, group, 0)) == [] <==> forall j :: !OfUser(s, user, group, j)
  {
    var start := 0;
    var ids := UserRows(s, user, group, start);
    if ids != [] {
      PlaceOf(s, user, group, start, 0);
    }
    forall j
      ensures OfUser(s, user, group, j) ==> j in ids
    {
      UserRowsAre(s, user, group, start, j);
    }
  }

  lemma {:induction false} CandidatesAre(s: State, r: Range, user: string, id: nat)
    requires WellFormed(s)
    ensures id in Candidates(s, r, user) <==> Looked(s, r.group, user, id)
  {
    NoRowsIff(s, user, r.group);
    FirstRowsAre(s, user, r.group, id);
    FirstRowsAre(s, user, "", id);
  }

  /** The rows are in the order of their keys. */
  ghost predicate Rising(ids: seq<nat>) {
    forall i, j :: 0 <= i < j < |ids| ==> ids[i] < ids[j]
  }

  lemma {:induction false} RisingCons(x: nat, ids: seq<nat>)
    requires Rising(ids) && forall id <- ids :: x < id
    ensures Rising([x] + ids)
  {
    var all := [x] + ids;
    forall i, j | 0 <= i < j < |all|
      ensures all[i] < all[j]
    {
      assert all[j] == ids[j - 1] && ids[j - 1] in ids;
      assert i > 0 ==> all[i] == ids[i - 1];
    }
  }

  lemma {:induction false} RisingFrom(from: nat, rest: seq<nat>, own: bool)
    requires Rising(rest) && forall id <- rest :: from + 1 <= id
    ensures var ids := (if own then [from] else []) + rest;
            Rising(ids) && forall id <- ids :: from <= id
  {
    if own {
      RisingCons(from, rest);
    } else {
      assert [] + rest == rest;
    }
  }

  lemma {:induction false} UserRowsRise(s: State, user: string, group: string, from: nat)
    requires WellFormed(s)
    ensures Rising(UserRows(s, user, group, from)) && forall id <- UserRows(s, user, group, from) :: from <= id
    decreases s.nextId - from
  {
    if from < s.nextId {
      UserRowsNext(s, user, group, from);
      UserRowsRise(s, user, group, from + 1);
      RisingFrom(from, UserRows(s, user, group, from + 1), OfUser(s, user, group, from));
    }
  }

  lemma {:induction false} CandidatesRise(s: State, r: Range, user: string)
    requires WellFormed(s)
    ensures Rising(Candidates(s, r, user))
  {
    UserRowsRise(s, user, r.group, 0);
    UserRowsRise(s, user, "", 0);
  }

  lemma {:induction false} FirstReusableIs(s: State, r: Range, ids: seq<nat>, mac: string)
    requires (forall i <- ids :: i in s.table) && Rising(ids)
    ensures match FirstReusable(s, r, ids, mac)
            case Some(id) => id in ids && Takeable(s, r, s.table[id], mac) &&
                             forall j <- ids :: Takeable(s, r, s.table[j], mac) ==> id <= j
            case None => forall j <- ids :: !Takeable(s, r, s.table[j], mac)
    decreases |ids|
  {
    if ids != [] {
      var rest := ids[1..];
      assert ids[0] in ids && forall i <- rest :: i in ids;
      assert forall i, j :: 0 <= i < j < |rest| ==> rest[i] == ids[i + 1] && rest[j] == ids[j + 1];
      FirstReusableIs(s, r, rest, mac);
      assert forall j <- ids :: j == ids[0] || j in rest;
      if Reusable(s, r, s.table[ids[0]], mac) {
        forall j | j in rest
          ensures ids[0] < j
        {
          var k :| 0 <= k < |rest| && rest[k] == j;
          assert ids[k + 1] == j;
        }
      }
    }
  }

  /**
   * A client known by its name is given the address of the first of the user's rows that it may take, and is
   * otherwise served by the scan.
   */
  lemma {:induction false} NamedClientIsGiven(s: State, r: Range, cur: uint32, q: Request)
    requires WellFormed(s) && ValidRange(r) && InPool(r, cur) && !q.uniqueMac
    ensures var (s', cur', ip) := AcquireSpec(s, r, cur, q);
            && (forall id :: Looked(s, r.group, q.user, id) && Takeable(s, r, s.table[id], q.mac)
                             && (forall j ::
                                   Looked(s, r.group, q.user, j) && Takeable(s, r, s.table[j], q.mac) ==> id <= j) ==>
                  ip == s.table[id].ip && cur' == cur)
            && ((forall id :: Looked(s, r.group, q.user, id) ==> !Takeable(s, r, s.table[id], q.mac)) ==>
                  IsScanned(s, r, cur, q, ip))
  {
    var ids := Candidates(s, r, q.user);
    forall id
      ensures id in ids <==> Looked(s, r.group, q.user, id)
    {
      CandidatesAre(s, r, q.user, id);
    }
    CandidatesRise(s, r, q.user);
    FirstReusableIs(s, r, ids, q.mac);
    if FirstReusable(s, r, ids, q.mac).None? {
      LoopIsScanned(s, r, cur, q);
    }
  }

  // ----- what a grant records

  /** The row holds the client's data, as of now. */
  predicate Records(row: Row, r: Range, n: uint32, q: Request) {
    && row.ip == Some(n) && row.mac == q.mac && row.group == r.group && row.user == q.user
    && row.uniqueMac == q.uniqueMac && row.lastLogin == q.now
  }

  /** The grant is recorded exactly if no row of another address binds the MAC in the group. */
  lemma {:induction false} HandRecordsIff(c: State, r: Range, n: uint32, q: Request)
    requires WellFormed(c)
    ensures var t := Hand(c, r, n, q).table;
            (exists id :: id in t && Records(t[id], r, n, q))
            <==> forall j :: IsBound(c.table, j, q.mac, r.group) ==> HasIp(c.table, j, n)
  {
    var t, own := Hand(c, r, n, q).table, ByIp(c.table, n);
    if forall j :: IsBound(c.table, j, q.mac, r.group) ==> HasIp(c.table, j, n) {
      var id := if own.Some? then own.value else c.nextId;
      forall j: nat
        ensures HasIp(c.table, j, n) <==> own == Some(j)
      {
        RowOf(c, n, j);
      }
      assert forall j <- c.table :: j != id ==> !IsBound(c.table, j, q.mac, r.group) && !HasIp(c.table, j, n);
      assert id in t && Records(t[id], r, n, q);
    } else {
      var j: nat :| IsBound(c.table, j, q.mac, r.group) && !HasIp(c.table, j, n);
      assert t == c.table;
      forall id | id in t
        ensures !Records(t[id], r, n, q)
      {
        assert id != j ==> !(t[id].mac == t[j].mac && t[id].group == t[j].group);
      }
    }
  }

  /** Handing out an address changes no row but its own. */
  lemma {:induction false} HandKeepsOthers(c: State, r: Range, n: uint32, q: Request)
    requires WellFormed(c)
    ensures var c' := Hand(c, r, n, q);
            && c'.active == c.active + {V4(n)}
            && forall id <- c.table :: id in c'.table && (c.table[id].ip != Some(n) ==> c'.table[id] == c.table[id])
  {
  }

  /**
   * What an acquisition leaves behind: the granted address is in use and nothing else is; its row holds the
   * client's data unless the MAC is bound in the group to another address; every other row is as it was, but for
   * the client's own, which may have gone.
   */
  lemma {:induction false} GrantIsRecorded(s: State, r: Range, cur: uint32, q: Request)
    requires WellFormed(s) && ValidRange(r) && InPool(r, cur)
    ensures var (s', _, ip) := AcquireSpec(s, r, cur, q);
            && s'.active == s.active + (if ip.Some? then {V4(ip.value)} else {})
            && (forall id <- s.table :: id !in s'.table ==> q.uniqueMac && OwnRow(s, r.group, q.mac, id))
            && (forall id <- s.table :: id in s'.table && (ip.None? || s.table[id].ip != ip) ==>
                  s'.table[id] == s.table[id])
            && (ip.Some? ==>
                  ((exists id :: id in s'.table && Records(s'.table[id], r, ip.value, q))
                   <==> forall j :: IsBound(Cleared(s, r, q).table, j, q.mac, r.group) ==>
                          HasIp(Cleared(s, r, q).table, j, ip.value)))
  {
    var ip, c := AcquireSpec(s, r, cur, q).2, Cleared(s, r, q);
    AcquireHands(s, r, cur, q);
    forall id: nat
      ensures OwnRow(s, r.group, q.mac, id) <==> Binding(s, r, q.mac) == Some(id)
    {
      BindingIs(s, r, q.mac, id);
    }
    if ip.Some? {
      HandKeepsOthers(c, r, ip.value, q);
      HandRecordsIff(c, r, ip.value, q);
    } else {
      RefusalKeeps(s, r, cur, q);
    }
  }

  lemma {:induction false} RefusalKeeps(s: State, r: Range, cur: uint32, q: Request)
    requires WellFormed(s) && ValidRange(r) && InPool(r, cur) && AcquireSpec(s, r, cur, q).2.None?
    ensures var s' := AcquireSpec(s, r, cur, q).0;
            && s'.active == s.active && (forall id <- s'.table :: id in s.table && s'.table[id] == s.table[id])
            && forall id <- s.table :: id !in s'.table ==> q.uniqueMac && Binding(s, r, q.mac) == Some(id)
  {
    LoopHands(s, r, cur, q);
    if q.uniqueMac && Binding(s, r, q.mac).Some? {
      LoopHands(DelRow(s, Binding(s, r, q.mac).value), r, cur, q);
    }
  }

  /** A client that reports its MAC is always recorded. */
  lemma {:induction false} ReportedMacIsRecorded(s: State, r: Range, cur: uint32, q: Request)
    requires WellFormed(s) && ValidRange(r) && InPool(r, cur) && q.uniqueMac && AcquireSpec(s, r, cur, q).2.Some?
    ensures var (s', _, ip) := AcquireSpec(s, r, cur, q);
            exists id :: id in s'.table && Records(s'.table[id], r, ip.value, q)
  {
    var ip, c := AcquireSpec(s, r, cur, q).2.value, Cleared(s, r, q);
    GrantIsRecorded(s, r, cur, q);
    forall j | IsBound(c.table, j, q.mac, r.group)
      ensures HasIp(c.table, j, ip)
    {
      assert IsBound(s.table, j, q.mac, r.group);
      BindingIs(s, r, q.mac, j);
    }
  }

  // ----- releasing

  /** A release takes both addresses out of use, stamps their rows, and takes the IPv6 address out of its row. */
  lemma {:induction false} ReleaseIsRecorded(s: State, ip: Option<uint32>, ip6: Option<nat>, now: int)
    requires WellFormed(s) && Ip6Unique(s.table)
    ensures var s' := ReleaseSpec(s, ip, ip6, now);
            && s'.active == s.active
                             - (if ip.Some? then {V4(ip.value)} else {}) - (if ip6.Some? then {V6(ip6.value)} else {})
            && s'.table.Keys == s.table.Keys
            && forall id <- s.table ::
                 var row := s.table[id];
                 var row' := if ip6.Some? && row.ip6 == ip6 then row.(ip6 := None, lastLogin := now) else row;
                 s'.table[id] == if ip.Some? && row.ip == ip then row'.(lastLogin := now) else row'
  {
    var t := s;
    if ip.Some? {
      Release4Records(s, ip.value, now);
      t := Release4(s, ip.value, now);
      Release4KeepsValid(s, ip.value, now);
    }
    if ip6.Some? {
      Release6Records(t, ip6.value, now);
    }
  }

  lemma {:induction false} Release4Records(s: State, n: uint32, now: int)
    requires WellFormed(s)
    ensures var s' := Release4(s, n, now);
            && s'.active == s.active - {V4(n)} && s'.table.Keys == s.table.Keys && s'.nextId == s.nextId
            && forall id <- s.table ::
                 s'.table[id] == if s.table[id].ip == Some(n) then s.table[id].(lastLogin := now) else s.table[id]
  {
    var own := ByIp(s.table, n);
    if own.Some? {
      assert Accepts(s.table, own.value, s.table[own.value].(lastLogin := now));
    }
    forall id | id in s.table && s.table[id].ip == Some(n)
      ensures own == Some(id)
    {
      ByIpIs(s.table, id, n);
    }
  }

  lemma {:induction false} Release6Records(s: State, n: nat, now: int)
    requires WellFormed(s) && Ip6Unique(s.table)
    ensures var s' := Release6(s, n, now);
            && s'.active == s.active - {V6(n)} && s'.table.Keys == s.table.Keys
            && forall id <- s.table ::
                 s'.table[id]
                 == if s.table[id].ip6 == Some(n) then s.table[id].(ip6 := None, lastLogin := now) else s.table[id]
  {
    var own := ByIp6(s.table, n);
    if own.Some? {
      assert Accepts(s.table, own.value, s.table[own.value].(ip6 := None, lastLogin := now));
    }
  }

  /** A device that reports its MAC gets its address back after a release, whenever it asks. */
  lemma {:induction false} AddressIsKept(s: State, r: Range, cur: uint32, q: Request, now: int,
                                         cur2: uint32, again: Request)
    requires WellFormed(s) && Ip6Unique(s.table) && ValidRange(r) && InPool(r, cur) && InPool(r, cur2)
    requires q.uniqueMac && again.uniqueMac && again.mac == q.mac && AcquireSpec(s, r, cur, q).2.Some?
    ensures var (s1, _, ip) := AcquireSpec(s, r, cur, q);
            AcquireSpec(ReleaseSpec(s1, ip, None, now), r, cur2, again).2 == ip
  {
    var (s1, _, ip) := AcquireSpec(s, r, cur, q);
    var s2 := ReleaseSpec(s1, ip, None, now);
    GrantIsExclusiveRange(s, r, cur, q);
    AcquireKeepsValid(s, r, cur, q);
    ReportedMacIsRecorded(s, r, cur, q);
    ReleaseIsRecorded(s1, ip, None, now);
    ReleaseKeepsValid(s1, ip, None, now);
    var id :| id in s1.table && Records(s1.table[id], r, ip.value, q);
    ReportedMacIsGiven(s2, r, cur2, again);
    assert OwnRow(s2, r.group, q.mac, id) && Givable(s2, r, s2.table[id]);
  }

  lemma {:induction false} GrantIsExclusiveRange(s: State, r: Range, cur: uint32, q: Request)
    requires WellFormed(s) && ValidRange(r) && InPool(r, cur) && AcquireSpec(s, r, cur, q).2.Some?
    ensures InPool(r, AcquireSpec(s, r, cur, q).2.value)
  {
    LoopGrantsIdle(s, r, cur, q);
    if q.uniqueMac && Binding(s, r, q.mac).Some? {
      LoopGrantsIdle(DelRow(s, Binding(s, r, q.mac).value), r, cur, q);
    }
  }

  // ----- IPv6

  /** Not in use, and no row of it is another client's or past its lease. */
  ghost predicate Vacant6(s: State, n: nat, q: Request) {
    && V6(n) !in s.active
    && forall id :: HasIp6(s.table, id, n) ==> s.table[id].mac == q.mac && q.now <= s.table[id].lastLogin + q.lease
  }

  lemma {:induction false} Available6IffVacant(s: State, n: nat, q: Request)
    requires Ip6Unique(s.table)
    ensures Available6(s, n, q) <==> Vacant6(s, n, q)
  {
    var own := ByIp6(s.table, n);
    assert own.Some? ==> HasIp6(s.table, own.value, n);
  }

  /** The first vacant IPv6 address from the cursor on is granted, or from the start if the cursor is outside. */
  lemma {:induction false} V6FirstVacant(s: State, group: string, start: nat, end: nat, cursor: nat, q: Request, n: nat)
    requires Ip6Unique(s.table) && start <= n <= end && Vacant6(s, n, q)
    ensures var ip, c := AcquireV6Spec(s, group, start, end, cursor, q).2,
                    if start <= cursor <= end then cursor else start;
            && ip.Some? && start <= ip.value <= end && Vacant6(s, ip.value, q)
            && (if c <= ip.value then n < c || ip.value <= n else n < c && ip.value <= n)
  {
    var c := Start6(start, end, cursor);
    forall m: nat
      ensures Available6(s, m, q) <==> Vacant6(s, m, q)
    {
      Available6IffVacant(s, m, q);
    }
    Scan6FindsFirst(s, c, end, q);
    if c > 0 {
      Scan6FindsFirst(s, start, c - 1, q);
    }
  }

  /** The granted IPv6 address is in use, and its row is the client's in its group, or was the client's already. */
  lemma {:induction false} V6GrantIsRecorded(s: State, group: string, start: nat, end: nat, cursor: nat, q: Request)
    requires WellFormed(s) && Ip6Unique(s.table)
    ensures var (s', _, ip) := AcquireV6Spec(s, group, start, end, cursor, q);
            && s'.active == s.active + (if ip.Some? then {V6(ip.value)} else {})
            && (forall id <- s.table :: id in s'.table &&
                  (IsBound(s.table, id, q.mac, group) || s'.table[id] == s.table[id]))
            && (ip.Some? && (exists id :: HasIp6(s.table, id, ip.value)) ==> s'.table == s.table)
            && (ip.Some? && (forall id :: !HasIp6(s.table, id, ip.value)) ==>
                  && (forall id :: IsBound(s.table, id, q.mac, group) ==>
                        s'.table[id] == s.table[id].(ip6 := ip, user := q.user, lastLogin := q.now))
                  && ((forall id :: !IsBound(s.table, id, q.mac, group)) &&
                      (forall id <- s.table :: s.table[id].ip.Some?) ==>
                        exists id :: id in s'.table &&
                          s'.table[id] == Row(None, ip, q.mac, group, q.user, q.uniqueMac, false, q.now)))
  {
    var ip := AcquireV6Spec(s, group, start, end, cursor, q).2;
    V6GrantsFromRange(s, group, start, end, cursor, q);
    if ip.Some? {
      Hand6Records(s, group, ip.value, q);
    }
  }

  lemma {:induction false} Hand6Records(s: State, group: string, n: nat, q: Request)
    requires WellFormed(s) && Ip6Unique(s.table)
    ensures var s', ip := Hand6(s, group, n, q), Some(n);
            && (forall id <- s.table :: id in s'.table &&
                  (IsBound(s.table, id, q.mac, group) || s'.table[id] == s.table[id]))
            && ((exists id :: HasIp6(s.table, id, n)) ==> s'.table == s.table)
            && ((forall id :: !HasIp6(s.table, id, n)) ==>
                  && (forall id :: IsBound(s.table, id, q.mac, group) ==>
                        s'.table[id] == s.table[id].(ip6 := ip, user := q.user, lastLogin := q.now))
                  && ((forall id :: !IsBound(s.table, id, q.mac, group)) &&
                      (forall id <- s.table :: s.table[id].ip.Some?) ==>
                        exists id :: id in s'.table &&
                          s'.table[id] == Row(None, ip, q.mac, group, q.user, q.uniqueMac, false, q.now)))
  {
    var own, s' := ByBinding(s.table, q.mac, group), Hand6(s, group, n, q);
    forall id: nat | IsBound(s.table, id, q.mac, group)
      ensures own == Some(id)
    {
      ByBindingIs(s.table, id, q.mac, group);
    }
    if forall id :: !HasIp6(s.table, id, n) {
      assert ByIp6(s.table, n).None?;
      if own.Some? {
        assert Accepts(s.table, own.value, s.table[own.value].(ip6 := Some(n), user := q.user, lastLogin := q.now));
      } else if forall id <- s.table :: s.table[id].ip.Some? {
        var row := Row(None, Some(n), q.mac, group, q.user, q.uniqueMac, false, q.now);
        assert Accepts(s.table, s.nextId, row);
        assert s'.table[s.nextId] == row;
      }
    }
  }
}
