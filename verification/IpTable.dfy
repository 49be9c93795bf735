/**
 * The lease table of the address allocator and the set of addresses in use, as values:
 * one row per IPv4 address and per (MAC, group), as the table's unique constraints demand.
 * A write that would break a constraint is rejected and leaves the table as it is;
 * the allocator only logs that.
 */
module IpTable {
  import opened Wire

  datatype Addr = V4(n: uint32) | V6(n6: nat)

  datatype Row = Row(ip: Option<uint32>, ip6: Option<nat>, mac: string, group: string, user: string,
                     uniqueMac: bool, keep: bool, lastLogin: int)

  type Table = map<nat, Row>

  /** The addresses in use, the lease table and its next primary key. */
  datatype State = State(active: set<Addr>, table: Table, nextId: nat)

  // ----- unique constraints

  ghost predicate IpUnique(t: Table) {
    forall i, j | i in t && j in t && i != j :: t[i].ip != t[j].ip
  }

  ghost predicate BindingUnique(t: Table) {
    forall i, j | i in t && j in t && i != j :: !(t[i].mac == t[j].mac && t[i].group == t[j].group)
  }

  ghost predicate Ip6Unique(t: Table) {
    forall i, j | i in t && j in t && i != j :: t[i].ip6.Some? ==> t[i].ip6 != t[j].ip6
  }

  ghost predicate WellFormed(s: State) {
    IpUnique(s.table) && BindingUnique(s.table) && forall id <- s.table :: id < s.nextId
  }

  /** Whether the constraints allow `row` at `id`. */
  predicate Accepts(t: Table, id: nat, row: Row) {
    forall j <- t :: j != id ==> t[j].ip != row.ip && !(t[j].mac == row.mac && t[j].group == row.group)
  }

  // ----- writes

  function SetRow(s: State, id: nat, row: Row): State {
    if Accepts(s.table, id, row) then s.(table := s.table[id := row]) else s
  }

  function AddRow(s: State, row: Row): State {
    if Accepts(s.table, s.nextId, row) then s.(table := s.table[s.nextId := row], nextId := s.nextId + 1) else s
  }

  function DelRow(s: State, id: nat): State {
    s.(table := s.table - {id})
  }

  function Activate(s: State, a: Addr): State {
    s.(active := s.active + {a})
  }

  lemma {:induction false} SetKeepsWellFormed(s: State, id: nat, row: Row)
    requires WellFormed(s) && id in s.table
    ensures WellFormed(SetRow(s, id, row))
  {
  }

  lemma {:induction false} AddKeepsWellFormed(s: State, row: Row)
    requires WellFormed(s)
    ensures WellFormed(AddRow(s, row))
  {
  }

  // ----- lookups

  ghost predicate HasIp(t: Table, id: nat, n: uint32) {
    id in t && t[id].ip == Some(n)
  }

  ghost predicate HasIp6(t: Table, id: nat, n: nat) {
    id in t && t[id].ip6 == Some(n)
  }

  ghost predicate IsBound(t: Table, id: nat, mac: string, group: string) {
    id in t && t[id].mac == mac && t[id].group == group
  }

  /** The row of an IPv4 address. */
  ghost function ByIp(t: Table, n: uint32): (r: Option<nat>)
    ensures r.Some? ==> HasIp(t, r.value, n)
    ensures r.None? ==> forall id <- t :: t[id].ip != Some(n)
  {
    if id :| HasIp(t, id, n) then Some(id)
    else
      assert forall id <- t :: t[id].ip == Some(n) ==> HasIp(t, id, n);
      None
  }

  ghost function ByIp6(t: Table, n: nat): (r: Option<nat>)
    ensures r.Some? ==> HasIp6(t, r.value, n)
    ensures r.None? ==> forall id <- t :: t[id].ip6 != Some(n)
  {
    if id :| HasIp6(t, id, n) then Some(id)
    else
      assert forall id <- t :: t[id].ip6 == Some(n) ==> HasIp6(t, id, n);
      None
  }

  /** The row that binds a MAC in a group. */
  ghost function ByBinding(t: Table, mac: string, group: string): (r: Option<nat>)
    ensures r.Some? ==> IsBound(t, r.value, mac, group)
    ensures r.None? ==> forall id <- t :: !(t[id].mac == mac && t[id].group == group)
  {
    if id :| IsBound(t, id, mac, group) then Some(id)
    else
      assert forall id <- t :: t[id].mac == mac && t[id].group == group ==> IsBound(t, id, mac, group);
      None
  }

  lemma {:induction false} ByIpIs(t: Table, id: nat, n: uint32)
    requires IpUnique(t) && HasIp(t, id, n)
    ensures ByIp(t, n) == Some(id)
  {
  }

  lemma {:induction false} ByBindingIs(t: Table, id: nat, mac: string, group: string)
    requires BindingUnique(t) && IsBound(t, id, mac, group)
    ensures ByBinding(t, mac, group) == Some(id)
  {
  }

  method FindByIp(t: Table, n: uint32) returns (r: Option<nat>)
    requires IpUnique(t)
    ensures r == ByIp(t, n)
  {
    var todo := t.Keys;
    while todo != {}
      invariant todo <= t.Keys && forall id <- t :: id !in todo ==> t[id].ip != Some(n)
    {
      var id :| id in todo;
      if t[id].ip == Some(n) {
        ByIpIs(t, id, n);
        return Some(id);
      }
      todo := todo - {id};
    }
    return None;
  }

  method FindByIp6(t: Table, n: nat) returns (r: Option<nat>)
    requires Ip6Unique(t)
    ensures r == ByIp6(t, n)
  {
    var todo := t.Keys;
    while todo != {}
      invariant todo <= t.Keys && forall id <- t :: id !in todo ==> t[id].ip6 != Some(n)
    {
      var id :| id in todo;
      if t[id].ip6 == Some(n) {
        return Some(id);
      }
      todo := todo - {id};
    }
    return None;
  }

  method FindByBinding(t: Table, mac: string, group: string) returns (r: Option<nat>)
    requires BindingUnique(t)
    ensures r == ByBinding(t, mac, group)
  {
    var todo := t.Keys;
    while todo != {}
      invariant todo <= t.Keys
      invariant forall id <- t :: id !in todo ==> !(t[id].mac == mac && t[id].group == group)
    {
      var id :| id in todo;
      if t[id].mac == mac && t[id].group == group {
        ByBindingIs(t, id, mac, group);
        return Some(id);
      }
      todo := todo - {id};
    }
    return None;
  }

  /** The rows of a user in a group, by primary key from `id` up. */
  function UserRows(s: State, user: string, group: string, id: nat): (ids: seq<nat>)
    ensures forall i <- ids :: i in s.table
    decreases s.nextId - id
  {
    if id >= s.nextId then []
    else
      (if id in s.table && s.table[id].user == user && s.table[id].group == group then [id] else [])
      + UserRows(s, user, group, id + 1)
  }
}
