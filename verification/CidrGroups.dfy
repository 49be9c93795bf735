/**
 * Saving user groups with their own address blocks. A block that overlaps the global pool, another group's
 * block or the network of the parent interface is refused; so no address is in two pools.
 */
module CidrGroups {
  import opened Wire
  import opened CidrBlocks

  /** A text field: left empty, not readable, or read. */
  datatype Field<T> = Empty | Bad | Good(value: T)

  datatype Group = Group(name: string, cidr: Field<Block>, start: Field<Address>, end: Field<Address>,
                         gateway: Field<Address>, cidr6: Field<Block>)

  datatype GroupError = Invalid | Incomplete | BadCidr | WrongFamily | BadAddress | BadOrder | Overlap | NoHosts
                      | NotSaved

  /** The global pools, where configured, and the networks of the parent interface. */
  datatype Config = Config(global4: Option<Block>, global6: Option<Block>, masters: seq<Block>)

  type Table = map<nat, Group>

  ghost predicate ParsedField(f: Field<Block>) {
    f.Good? ==> Parsed(f.value)
  }

  ghost predicate ParsedGroup(g: Group) {
    ParsedField(g.cidr) && ParsedField(g.cidr6)
  }

  ghost predicate ParsedConfig(cfg: Config) {
    && (cfg.global4.Some? ==> Parsed(cfg.global4.value)) && (cfg.global6.Some? ==> Parsed(cfg.global6.value))
    && forall m <- cfg.masters :: Parsed(m)
  }

  ghost predicate ParsedTable(t: Table) {
    forall id <- t :: ParsedGroup(t[id])
  }

  function Global(cfg: Config, v6: bool): Option<Block> {
    if v6 then cfg.global6 else cfg.global4
  }

  /** The block a group has in one family. */
  function BlockOf(g: Group, v6: bool): Field<Block> {
    if v6 then g.cidr6 else g.cidr
  }

  ghost predicate Clashes(f: Field<Block>, b: Block)
    requires ParsedField(f) && Parsed(b)
  {
    f.Good? && Overlaps(f.value, b)
  }

  ghost predicate OthersClash(t: Table, id: nat, b: Block, v6: bool)
    requires ParsedTable(t) && Parsed(b)
  {
    exists j :: j in t && j != id && Clashes(BlockOf(t[j], v6), b)
  }

  ghost predicate MastersClash(cfg: Config, b: Block, v6: bool)
    requires ParsedConfig(cfg) && Parsed(b)
  {
    exists m :: m in cfg.masters && m.v6 == v6 && Overlaps(m, b)
  }

  ghost predicate GlobalClashes(cfg: Config, b: Block, v6: bool)
    requires ParsedConfig(cfg) && Parsed(b)
  {
    Global(cfg, v6).Some? && Overlaps(Global(cfg, v6).value, b)
  }

  /** What the overlap check finds; when the groups cannot be read it looks no further than the global pool. */
  ghost predicate OverlapFound(cfg: Config, t: Table, id: nat, b: Block, v6: bool, readable: bool)
    requires ParsedConfig(cfg) && ParsedTable(t) && Parsed(b)
  {
    GlobalClashes(cfg, b, v6) || (readable && (OthersClash(t, id, b, v6) || MastersClash(cfg, b, v6)))
  }

  method CheckCidrOverlap(cfg: Config, t: Table, id: nat, b: Block, v6: bool, readable: bool) returns (found: bool)
    requires ParsedConfig(cfg) && ParsedTable(t) && Parsed(b)
    ensures found <==> OverlapFound(cfg, t, id, b, v6, readable)
  {
    var global := if v6 then cfg.global6 else cfg.global4;
    if global.Some? && Overlaps(global.value, b) {
      return true;
    }
    if !readable {
      return false;
    }
    var todo := t.Keys;
    while todo != {}
      invariant todo <= t.Keys
      invariant forall j <- t :: j !in todo && j != id ==> !Clashes(BlockOf(t[j], v6), b)
    {
      var j :| j in todo;
      todo := todo - {j};
      if j != id {
        var c := if v6 then t[j].cidr6 else t[j].cidr;
        assert ParsedGroup(t[j]) && c == BlockOf(t[j], v6);
        if c.Good? && Overlaps(c.value, b) {
          assert Clashes(BlockOf(t[j], v6), b);
          return true;
        }
      }
    }
    for i := 0 to |cfg.masters|
      invariant forall k :: 0 <= k < i ==> cfg.masters[k].v6 != v6 || !Overlaps(cfg.masters[k], b)
    {
      var m := cfg.masters[i];
      if m.v6 == v6 && Overlaps(m, b) {
        return true;
      }
    }
    return false;
  }

  // ----- saving a group

  function Filled(g: Group): nat {
    (if g.cidr.Empty? then 0 else 1) + (if g.start.Empty? then 0 else 1)
    + (if g.end.Empty? then 0 else 1) + (if g.gateway.Empty? then 0 else 1)
  }

  predicate Inside(b: Block, f: Field<Address>)
    requires Parsed(b)
  {
    f.Good? && Contains(b, f.value)
  }

  /** What is wrong with the IPv4 part, before overlaps are looked for. */
  function RangeError(g: Group): Option<GroupError>
    requires Filled(g) == 4 && (g.cidr.Good? ==> Parsed(g.cidr.value))
  {
    if !g.cidr.Good? then Some(BadCidr)
    else if g.cidr.value.v6 then Some(WrongFamily)
    else if !(Inside(g.cidr.value, g.start) && Inside(g.cidr.value, g.end) && Inside(g.cidr.value, g.gateway))
    then Some(BadAddress)
    else if g.start.value.n >= g.end.value.n then Some(BadOrder)
    else None
  }

  function RangeError6(g: Group): Option<GroupError> {
    if Filled(g) != 4 then Some(Incomplete)
    else if !g.cidr6.Good? then Some(BadCidr)
    else if !g.cidr6.value.v6 then Some(WrongFamily)
    else if g.cidr6.value.ones >= 128 then Some(NoHosts)
    else None
  }

  ghost function Check4(cfg: Config, t: Table, id: nat, g: Group, readable: bool): Option<GroupError>
    requires ParsedConfig(cfg) && ParsedTable(t) && ParsedGroup(g)
  {
    if Filled(g) == 0 then None
    else if Filled(g) != 4 then Some(Incomplete)
    else if RangeError(g).Some? then RangeError(g)
    else if OverlapFound(cfg, t, id, g.cidr.value, false, readable) then Some(Overlap)
    else None
  }

  ghost function Check6(cfg: Config, t: Table, id: nat, g: Group, readable: bool): Option<GroupError>
    requires ParsedConfig(cfg) && ParsedTable(t) && ParsedGroup(g)
  {
    if g.cidr6.Empty? then None
    else if RangeError6(g).Some? then RangeError6(g)
    else if OverlapFound(cfg, t, id, g.cidr6.value, true, readable) then Some(Overlap)
    else None
  }

  /** Everything the outcome of a call depends on besides the table; a new group has id 0. */
  datatype Call = Call(id: nat, g: Group, sound: bool, readable4: bool, readable6: bool, saved: bool)

  ghost function ErrorOf(cfg: Config, t: Table, c: Call): Option<GroupError>
    requires ParsedConfig(cfg) && ParsedTable(t) && ParsedGroup(c.g)
  {
    if !c.sound then Some(Invalid)
    else if Check4(cfg, t, c.id, c.g, c.readable4).Some? then Check4(cfg, t, c.id, c.g, c.readable4)
    else if Check6(cfg, t, c.id, c.g, c.readable6).Some? then Check6(cfg, t, c.id, c.g, c.readable6)
    else if !c.saved then Some(NotSaved)
    else None
  }

  /** The table and its next id after a call. */
  ghost function After(cfg: Config, t: Table, nextId: nat, c: Call): (Table, nat)
    requires ParsedConfig(cfg) && ParsedTable(t) && ParsedGroup(c.g)
  {
    if ErrorOf(cfg, t, c).Some? then (t, nextId)
    else if c.id == 0 then (t[nextId := c.g], nextId + 1)
    else if c.id in t then (t[c.id := c.g], nextId)
    else (t, nextId)
  }

  class GroupTable {
    const cfg: Config
    var groups: Table
    var nextId: nat

    constructor (cfg: Config)
      ensures this.cfg == cfg && groups == map[] && nextId == 1
    {
      this.cfg, groups, nextId := cfg, map[], 1;
    }

    method ValidateRange(g: Group) returns (error: Option<GroupError>)
      requires Filled(g) == 4 && ParsedGroup(g)
      ensures error == RangeError(g)
    {
      if !g.cidr.Good? {
        return Some(BadCidr);
      }
      var ipNet := g.cidr.value;
      if ipNet.v6 {
        return Some(WrongFamily);
      }
      var addresses := [g.start, g.end, g.gateway];
      for i := 0 to 3
        invariant forall k :: 0 <= k < i ==> Inside(ipNet, addresses[k])
      {
        if !addresses[i].Good? || !Contains(ipNet, addresses[i].value) {
          assert !Inside(ipNet, addresses[i]);
          return Some(BadAddress);
        }
      }
      assert Inside(ipNet, addresses[0]) && Inside(ipNet, addresses[1]) && Inside(ipNet, addresses[2]);
      return if g.start.value.n >= g.end.value.n then Some(BadOrder) else None;
    }

    method ValidateV4(id: nat, g: Group, readable: bool) returns (error: Option<GroupError>)
      requires ParsedConfig(cfg) && ParsedTable(groups) && ParsedGroup(g)
      ensures error == Check4(cfg, groups, id, g, readable)
    {
      var n := Filled(g);
      if n == 0 {
        return None;
      }
      if n != 4 {
        return Some(Incomplete);
      }
      error := ValidateRange(g);
      if error.Some? {
        return error;
      }
      var clash := CheckCidrOverlap(cfg, groups, id, g.cidr.value, false, readable);
      return if clash then Some(Overlap) else None;
    }

    method ValidateV6(id: nat, g: Group, readable: bool) returns (error: Option<GroupError>)
      requires ParsedConfig(cfg) && ParsedTable(groups) && ParsedGroup(g)
      ensures error == Check6(cfg, groups, id, g, readable)
    {
      if g.cidr6.Empty? {
        return None;
      }
      error := RangeError6(g);
      if error.Some? {
        return error;
      }
      var clash := CheckCidrOverlap(cfg, groups, id, g.cidr6.value, true, readable);
      return if clash then Some(Overlap) else None;
    }

    /**
     * Saves a group under its id, or as a new one with id 0. `readable4` and `readable6` say whether the groups
     * could be read at the two overlap checks, `sound` sums up the checks on everything but address blocks,
     * and `saved` says whether the table takes the write.
     */
    method SetGroup(id: nat, g: Group, sound: bool, readable4: bool, readable6: bool, saved: bool)
      returns (error: Option<GroupError>)
      requires ParsedConfig(cfg) && ParsedTable(groups) && ParsedGroup(g)
      modifies this`groups, this`nextId
      ensures var c := Call(id, g, sound, readable4, readable6, saved);
              && error == ErrorOf(cfg, old(groups), c)
              && (groups, nextId) == After(cfg, old(groups), old(nextId), c)
      ensures error.Some? ==> groups == old(groups) && nextId == old(nextId)
      ensures error.None? && id == 0 ==> groups == old(groups)[old(nextId) := g] && nextId == old(nextId) + 1
      ensures error.None? && id != 0 ==>
                nextId == old(nextId) && groups == if id in old(groups) then old(groups)[id := g] else old(groups)
    {
      if !sound {
        return Some(Invalid);
      }
      error := ValidateV4(id, g, readable4);
      if error.Some? {
        return error;
      }
      error := ValidateV6(id, g, readable6);
      if error.Some? {
        return error;
      }
      if !saved {
        return Some(NotSaved);
      }
      if id == 0 {
        groups := groups[nextId := g];
        nextId := nextId + 1;
      } else if id in groups {
        groups := groups[id := g];
      }
    }
  }

  // ----- what is accepted

  /** The address is one of the block's. */
  predicate AmongAddresses(b: Block, a: Field<Address>)
    requires Parsed(b)
  {
    a.Good? && a.value.v6 == b.v6 && b.network <= a.value.n < b.network + Size(b)
  }

  /** Two blocks of which some address is in both. */
  ghost predicate Meet(a: Block, b: Block)
    requires Parsed(a) && Parsed(b)
  {
    exists x :: Contains(a, x) && Contains(b, x)
  }

  /** Nothing that is looked at meets the block: the global pool, and, if the groups can be read, the rest. */
  ghost predicate Alone(cfg: Config, t: Table, id: nat, b: Block, v6: bool, readable: bool)
    requires ParsedConfig(cfg) && ParsedTable(t) && Parsed(b)
  {
    && (Global(cfg, v6).Some? ==> !Meet(Global(cfg, v6).value, b))
    && (readable ==>
          && (forall j :: j in t && j != id && BlockOf(t[j], v6).Good? ==> !Meet(BlockOf(t[j], v6).value, b))
          && forall m :: m in cfg.masters && m.v6 == v6 ==> !Meet(m, b))
  }

  /** The IPv4 part: all four fields, in order, inside an IPv4 block. */
  ghost predicate Sound4(g: Group)
    requires ParsedGroup(g)
  {
    && g.cidr.Good? && !g.cidr.value.v6 && AmongAddresses(g.cidr.value, g.start)
    && AmongAddresses(g.cidr.value, g.end) && AmongAddresses(g.cidr.value, g.gateway)
    && g.start.value.n < g.end.value.n
  }

  ghost predicate Sound6(g: Group) {
    g.cidr6.Good? && g.cidr6.value.v6 && g.cidr6.value.ones < 128
  }

  predicate AllEmpty(g: Group) {
    g.cidr.Empty? && g.start.Empty? && g.end.Empty? && g.gateway.Empty?
  }

  lemma {:induction false} FoundIffNotAlone(cfg: Config, t: Table, id: nat, b: Block, v6: bool, readable: bool)
    requires ParsedConfig(cfg) && ParsedTable(t) && Parsed(b)
    ensures OverlapFound(cfg, t, id, b, v6, readable) <==> !Alone(cfg, t, id, b, v6, readable)
  {
    forall a: Block | Parsed(a)
      ensures Overlaps(a, b) <==> Meet(a, b)
    {
      OverlapsIff(a, b);
    }
    if OthersClash(t, id, b, v6) {
      var j :| j in t && j != id && Clashes(BlockOf(t[j], v6), b);
      assert Meet(BlockOf(t[j], v6).value, b);
    }
    if MastersClash(cfg, b, v6) {
      var m :| m in cfg.masters && m.v6 == v6 && Overlaps(m, b);
      assert Meet(m, b);
    }
  }

  lemma {:induction false} RangeIsSound(g: Group)
    requires ParsedGroup(g) && Filled(g) == 4
    ensures RangeError(g).None? <==> Sound4(g)
  {
    if g.cidr.Good? {
      forall a: Address
        ensures Contains(g.cidr.value, a) <==> AmongAddresses(g.cidr.value, Good(a))
      {
        ContainsIff(g.cidr.value, a);
      }
    }
  }

  /**
   * A group is accepted exactly if everything but its blocks is in order, its IPv4 part is empty or sound and alone,
   * and its IPv6 block is empty or, beside an IPv4 part, sound and alone; and the table takes it.
   */
  lemma {:induction false} AcceptedIff(cfg: Config, t: Table, c: Call)
    requires ParsedConfig(cfg) && ParsedTable(t) && ParsedGroup(c.g)
    ensures ErrorOf(cfg, t, c).None?
       <==> && c.sound && c.saved
            && (AllEmpty(c.g) || (Sound4(c.g) && Alone(cfg, t, c.id, c.g.cidr.value, false, c.readable4)))
            && (c.g.cidr6.Empty? ||
                (Sound4(c.g) && Sound6(c.g) && Alone(cfg, t, c.id, c.g.cidr6.value, true, c.readable6)))
  {
    if Filled(c.g) == 4 {
      RangeIsSound(c.g);
    }
    if c.g.cidr.Good? {
      FoundIffNotAlone(cfg, t, c.id, c.g.cidr.value, false, c.readable4);
    }
    if c.g.cidr6.Good? {
      FoundIffNotAlone(cfg, t, c.id, c.g.cidr6.value, true, c.readable6);
    }
  }

  /** What an error says: the defect it names, with all that is checked before it in order. */
  lemma {:induction false} ErrorNamesDefect(cfg: Config, t: Table, c: Call)
    requires ParsedConfig(cfg) && ParsedTable(t) && ParsedGroup(c.g) && ErrorOf(cfg, t, c).Some?
    ensures var g, error := c.g, ErrorOf(cfg, t, c).value;
            var ok4 := AllEmpty(g) || (Sound4(g) && Alone(cfg, t, c.id, g.cidr.value, false, c.readable4));
            && (error == Invalid <==> !c.sound)
            && (error == NotSaved ==> ok4 && (g.cidr6.Empty? || Sound6(g)) && !c.saved)
            && (error == Incomplete ==>
                  (Filled(g) != 0 && Filled(g) != 4) || (AllEmpty(g) && !g.cidr6.Empty?))
            && (error == BadCidr ==> g.cidr.Bad? || (ok4 && g.cidr6.Bad?))
            && (error == WrongFamily ==>
                  (g.cidr.Good? && g.cidr.value.v6) || (ok4 && g.cidr6.Good? && !g.cidr6.value.v6))
            && (error == NoHosts ==> ok4 && g.cidr6.Good? && g.cidr6.value.v6 && g.cidr6.value.ones >= 128)
            && (error == BadAddress ==>
                  g.cidr.Good? && !(AmongAddresses(g.cidr.value, g.start) && AmongAddresses(g.cidr.value, g.end)
                                    && AmongAddresses(g.cidr.value, g.gateway)))
            && (error == BadOrder ==> g.start.Good? && g.end.Good? && g.start.value.n >= g.end.value.n)
            && (error == Overlap ==>
                  || (Sound4(g) && !Alone(cfg, t, c.id, g.cidr.value, false, c.readable4))
                  || (ok4 && Sound6(g) && !Alone(cfg, t, c.id, g.cidr6.value, true, c.readable6)))
  {
    if Filled(c.g) == 4 {
      RangeIsSound(c.g);
      AddressesAmong(c.g);
    }
    if c.g.cidr.Good? {
      FoundIffNotAlone(cfg, t, c.id, c.g.cidr.value, false, c.readable4);
    }
    if c.g.cidr6.Good? {
      FoundIffNotAlone(cfg, t, c.id, c.g.cidr6.value, true, c.readable6);
    }
  }

  lemma {:induction false} AddressesAmong(g: Group)
    requires ParsedGroup(g)
    ensures g.cidr.Good? ==>
              && (Inside(g.cidr.value, g.start) <==> AmongAddresses(g.cidr.value, g.start))
              && (Inside(g.cidr.value, g.end) <==> AmongAddresses(g.cidr.value, g.end))
              && (Inside(g.cidr.value, g.gateway) <==> AmongAddresses(g.cidr.value, g.gateway))
  {
    if g.cidr.Good? {
      forall a: Address
        ensures Contains(g.cidr.value, a) <==> AmongAddresses(g.cidr.value, Good(a))
      {
        ContainsIff(g.cidr.value, a);
      }
    }
  }

  // ----- what stays disjoint

  /** No block of a group meets a global pool or another group's block. */
  ghost predicate Disjoint(cfg: Config, t: Table)
    requires ParsedConfig(cfg) && ParsedTable(t)
  {
    forall id, v6 | id in t && BlockOf(t[id], v6).Good? ::
      var b := BlockOf(t[id], v6).value;
      !GlobalClashes(cfg, b, v6) && !OthersClash(t, id, b, v6)
  }

  /** A group that passes the checks has sensible ranges. */
  ghost predicate Sensible(g: Group)
    requires ParsedGroup(g)
  {
    && (g.cidr.Good? ==> Filled(g) == 4 && RangeError(g).None?)
    && (g.cidr6.Good? ==> RangeError6(g).None?)
  }

  ghost predicate AllSensible(t: Table)
    requires ParsedTable(t)
  {
    forall id <- t :: Sensible(t[id])
  }

  ghost predicate Accepted(cfg: Config, t: Table, id: nat, g: Group, readable4: bool, readable6: bool)
    requires ParsedConfig(cfg) && ParsedTable(t) && ParsedGroup(g)
  {
    Check4(cfg, t, id, g, readable4).None? && Check6(cfg, t, id, g, readable6).None?
  }

  ghost predicate FieldFree(t: Table, id: nat, f: Field<Block>, v6: bool)
    requires ParsedTable(t) && ParsedField(f)
  {
    f.Good? ==> !OthersClash(t, id, f.value, v6)
  }

  /** An accepted group does not meet the global pools. */
  lemma {:induction false} AcceptedAvoidsGlobal(cfg: Config, t: Table, id: nat, g: Group, readable4: bool,
                                                readable6: bool,
                                                v6: bool)
    requires ParsedConfig(cfg) && ParsedTable(t) && ParsedGroup(g) && Accepted(cfg, t, id, g, readable4, readable6)
    ensures BlockOf(g, v6).Good? ==> !GlobalClashes(cfg, BlockOf(g, v6).value, v6)
    ensures BlockOf(g, v6).Good? && (if v6 then readable6 else readable4) ==>
              !OthersClash(t, id, BlockOf(g, v6).value, v6)
    ensures Sensible(g)
  {
  }

  lemma {:induction false} OthersAfter(t: Table, id: nat, g: Group, j: nat, v6: bool)
    requires ParsedTable(t) && ParsedGroup(g) && j in t && j != id && BlockOf(t[j], v6).Good?
    requires !OthersClash(t, j, BlockOf(t[j], v6).value, v6)
    requires FieldFree(t, id, BlockOf(g, v6), v6)
    ensures ParsedTable(t[id := g])
    ensures !OthersClash(t[id := g], j, BlockOf(t[j], v6).value, v6)
  {
  }

  lemma {:induction false} SameOthers(t: Table, id: nat, g: Group, b: Block, v6: bool)
    requires ParsedTable(t) && ParsedGroup(g) && Parsed(b)
    ensures ParsedTable(t[id := g]) && (OthersClash(t[id := g], id, b, v6) <==> OthersClash(t, id, b, v6))
  {
    var t' := t[id := g];
    if j :| j in t && j != id && Clashes(BlockOf(t[j], v6), b) {
      assert t'[j] == t[j];
    }
    if j :| j in t' && j != id && Clashes(BlockOf(t'[j], v6), b) {
      assert t'[j] == t[j];
    }
  }

  /**
   * Saving an accepted group keeps all blocks disjoint exactly if, for each family, the groups could be read
   * at the check or there happened to be no clash with another group.
   */
  lemma {:induction false} AcceptedKeepsDisjointIff(cfg: Config, t: Table, id: nat, g: Group, readable4: bool,
                                                    readable6: bool)
    requires ParsedConfig(cfg) && ParsedTable(t) && ParsedGroup(g) && Disjoint(cfg, t)
    requires Accepted(cfg, t, id, g, readable4, readable6)
    ensures ParsedTable(t[id := g])
    ensures Disjoint(cfg, t[id := g])
       <==> (readable4 || FieldFree(t, id, g.cidr, false)) && (readable6 || FieldFree(t, id, g.cidr6, true))
  {
    var t' := t[id := g];
    AcceptedAvoidsGlobal(cfg, t, id, g, readable4, readable6, false);
    AcceptedAvoidsGlobal(cfg, t, id, g, readable4, readable6, true);
    if FieldFree(t, id, g.cidr, false) && FieldFree(t, id, g.cidr6, true) {
      forall j, v6 | j in t' && BlockOf(t'[j], v6).Good?
        ensures var b := BlockOf(t'[j], v6).value; !GlobalClashes(cfg, b, v6) && !OthersClash(t', j, b, v6)
      {
        if j == id {
          SameOthers(t, id, g, BlockOf(g, v6).value, v6);
        } else {
          OthersAfter(t, id, g, j, v6);
        }
      }
    } else {
      var v6 := FieldFree(t, id, g.cidr, false);
      SameOthers(t, id, g, BlockOf(g, v6).value, v6);
      assert BlockOf(t'[id], v6) == BlockOf(g, v6);
    }
  }

  // ----- pools

  /** The IPv4 addresses a group's pool hands out. */
  ghost predicate InPool4(g: Group, n: nat) {
    g.cidr.Good? && g.start.Good? && g.end.Good? && g.start.value.n <= n <= g.end.value.n
  }

  /** The IPv6 addresses a block's pool hands out: all but the network address and the gateway behind it. */
  predicate InPool6(b: Block, n: nat)
    requires Parsed(b)
  {
    b.network + 2 <= n <= b.network + Size(b) - 1
  }

  lemma {:induction false} PoolInBlock(g: Group, n: nat)
    requires ParsedGroup(g) && Sensible(g) && InPool4(g, n)
    ensures Contains(g.cidr.value, Address(false, n))
  {
    ContainsIff(g.cidr.value, g.start.value);
    ContainsIff(g.cidr.value, g.end.value);
    ContainsIff(g.cidr.value, Address(false, n));
  }

  /** In a disjoint table no address is in the pools of two groups, nor in a group's pool and the global block. */
  lemma {:induction false} NoAddressInTwoPools(cfg: Config, t: Table, i: nat, j: nat, n: nat)
    requires ParsedConfig(cfg) && ParsedTable(t) && Disjoint(cfg, t) && AllSensible(t) && i in t
    ensures InPool4(t[i], n) && j in t && InPool4(t[j], n) ==> i == j
    ensures InPool4(t[i], n) && cfg.global4.Some? ==> !Contains(cfg.global4.value, Address(false, n))
  {
    if InPool4(t[i], n) {
      var a := Address(false, n);
      PoolInBlock(t[i], n);
      assert !GlobalClashes(cfg, BlockOf(t[i], false).value, false);
      if cfg.global4.Some? {
        OverlapsIff(cfg.global4.value, t[i].cidr.value);
      }
      if j in t && j != i && InPool4(t[j], n) {
        PoolInBlock(t[j], n);
        OverlapsIff(t[j].cidr.value, t[i].cidr.value);
      }
    }
  }

  lemma {:induction false} NoAddressInTwoPools6(cfg: Config, t: Table, i: nat, j: nat, n: nat)
    requires ParsedConfig(cfg) && ParsedTable(t) && Disjoint(cfg, t) && AllSensible(t)
    requires i in t && t[i].cidr6.Good? && InPool6(t[i].cidr6.value, n)
    ensures j in t && t[j].cidr6.Good? && InPool6(t[j].cidr6.value, n) ==> i == j
    ensures cfg.global6.Some? && cfg.global6.value.v6 ==> !InPool6(cfg.global6.value, n)
  {
    var a, b := Address(true, n), t[i].cidr6.value;
    ContainsIff(b, a);
    assert !GlobalClashes(cfg, BlockOf(t[i], true).value, true);
    if cfg.global6.Some? && cfg.global6.value.v6 {
      ContainsIff(cfg.global6.value, a);
      OverlapsIff(cfg.global6.value, b);
    }
    if j in t && j != i && t[j].cidr6.Good? && InPool6(t[j].cidr6.value, n) {
      ContainsIff(t[j].cidr6.value, a);
      OverlapsIff(t[j].cidr6.value, b);
    }
  }

  // ----- runs

  ghost predicate Numbered(t: Table, nextId: nat) {
    0 < nextId && 0 !in t && forall id <- t :: id < nextId
  }

  /** It makes no difference which unused id a group is checked under. */
  lemma {:induction false} UnusedIds(cfg: Config, t: Table, i: nat, j: nat, g: Group)
    requires ParsedConfig(cfg) && ParsedTable(t) && ParsedGroup(g) && i !in t && j !in t
    ensures Accepted(cfg, t, i, g, true, true) ==> Accepted(cfg, t, j, g, true, true)
  {
  }

  lemma {:induction false} SavingKeeps(cfg: Config, t: Table, id: nat, g: Group)
    requires ParsedConfig(cfg) && ParsedTable(t) && ParsedGroup(g) && Accepted(cfg, t, id, g, true, true)
    requires Disjoint(cfg, t) && AllSensible(t)
    ensures ParsedTable(t[id := g]) && Disjoint(cfg, t[id := g]) && AllSensible(t[id := g])
  {
    AcceptedKeepsDisjointIff(cfg, t, id, g, true, true);
    AcceptedAvoidsGlobal(cfg, t, id, g, true, true, false);
  }

  /** The table after these calls. */
  ghost function Run(cfg: Config, t: Table, nextId: nat, calls: seq<Call>): (t': Table)
    requires ParsedConfig(cfg) && ParsedTable(t) && forall c <- calls :: ParsedGroup(c.g)
    ensures ParsedTable(t')
    decreases |calls|
  {
    if calls == [] then t
    else
      assert calls[0] in calls && forall x <- calls[1..] :: x in calls;
      var (t', next) := After(cfg, t, nextId, calls[0]);
      Run(cfg, t', next, calls[1..])
  }

  lemma {:induction false} CallKeeps(cfg: Config, t: Table, nextId: nat, c: Call)
    requires ParsedConfig(cfg) && ParsedTable(t) && ParsedGroup(c.g) && c.readable4 && c.readable6
    requires Numbered(t, nextId) && Disjoint(cfg, t) && AllSensible(t)
    ensures var (t', next) := After(cfg, t, nextId, c);
            ParsedTable(t') && Numbered(t', next) && Disjoint(cfg, t') && AllSensible(t')
  {
    if ErrorOf(cfg, t, c).None? && c.saved {
      if c.id == 0 {
        UnusedIds(cfg, t, 0, nextId, c.g);
        SavingKeeps(cfg, t, nextId, c.g);
      } else if c.id in t {
        SavingKeeps(cfg, t, c.id, c.g);
      }
    }
  }

  /**
   * While the groups can be read, every run of calls keeps all groups' blocks disjoint from each other and
   * from the global pools, and every stored range sensible.
   */
  lemma {:induction false} RunsKeepDisjoint(cfg: Config, t: Table, nextId: nat, calls: seq<Call>)
    requires ParsedConfig(cfg) && ParsedTable(t) && forall c <- calls :: ParsedGroup(c.g) && c.readable4 && c.readable6
    requires Numbered(t, nextId) && Disjoint(cfg, t) && AllSensible(t)
    ensures Disjoint(cfg, Run(cfg, t, nextId, calls)) && AllSensible(Run(cfg, t, nextId, calls))
    decreases |calls|
  {
    if calls != [] {
      assert calls[0] in calls && forall x <- calls[1..] :: x in calls;
      CallKeeps(cfg, t, nextId, calls[0]);
      var (t', next) := After(cfg, t, nextId, calls[0]);
      RunsKeepDisjoint(cfg, t', next, calls[1..]);
    }
  }

  /** An IPv6 address that a group's pool hands out. */
  ghost predicate InGroupPool6(g: Group, n: nat)
    requires ParsedGroup(g)
  {
    g.cidr6.Good? && InPool6(g.cidr6.value, n)
  }

  /**
   * So from no groups on, no address of either family is ever in the pools of two groups or in a group's
   * pool and the global one.
   */
  lemma {:induction false} PoolsNeverMeet(cfg: Config, calls: seq<Call>, i: nat, j: nat, n: nat)
    requires ParsedConfig(cfg) && forall c <- calls :: ParsedGroup(c.g) && c.readable4 && c.readable6
    ensures var t := Run(cfg, map[], 1, calls);
            && (i in t && j in t && InPool4(t[i], n) && InPool4(t[j], n) ==> i == j)
            && (i in t && InPool4(t[i], n) && cfg.global4.Some? ==> !Contains(cfg.global4.value, Address(false, n)))
            && (i in t && j in t && InGroupPool6(t[i], n) && InGroupPool6(t[j], n) ==> i == j)
            && (i in t && InGroupPool6(t[i], n) && cfg.global6.Some? && cfg.global6.value.v6 ==>
                  !InPool6(cfg.global6.value, n))
  {
    RunsKeepDisjoint(cfg, map[], 1, calls);
    var t := Run(cfg, map[], 1, calls);
    if i in t {
      NoAddressInTwoPools(cfg, t, i, j, n);
      if InGroupPool6(t[i], n) {
        NoAddressInTwoPools6(cfg, t, i, j, n);
      }
    }
  }
}
