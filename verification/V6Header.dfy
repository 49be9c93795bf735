/**
 * The walker over the extension headers of an IPv6 packet (section 4 of RFC 8200, section 2.2 of RFC 4302).
 * `Parse` says what it answers, as a recursion along the chain; `ParseV6Header` is the loop. What a chain of
 * headers looks like is said a second time by `Encode`, and the two are proved to be inverse.
 */
module V6Header {
  import opened Wire

  datatype Fragment = Fragment(offset: uint16, more: bool, id: uint32)

  datatype Ports = Ports(src: uint16, dst: uint16)

  datatype V6Info = V6Info(proto: byte, src: Bytes, dst: Bytes, ports: Ports, l4Off: nat, packetEnd: nat,
                           fragment: Option<Fragment>)

  const HOP_BY_HOP: byte := 0
  const TCP: byte := 6
  const UDP: byte := 17
  const ROUTING: byte := 43
  const FRAGMENT: byte := 44
  const ESP: byte := 50
  const AUTH: byte := 51
  const DEST_OPTIONS: byte := 60
  const MOBILITY: byte := 135

  const NO_PORTS := Ports(0, 0)
  const MAX_HEADERS := 12

  /** Headers with a length octet in units of 8 octets. */
  predicate Options(kind: byte) {
    kind == HOP_BY_HOP || kind == ROUTING || kind == DEST_OPTIONS || kind == MOBILITY
  }

  predicate Extension(kind: byte) {
    Options(kind) || kind == AUTH || kind == FRAGMENT
  }

  // ----- what the walker answers

  function FragmentAt(data: Bytes, off: nat): Fragment
    requires off + 8 <= |data|
  {
    var field := Be16(data[off + 2], data[off + 3]);
    Fragment(field / 8 * 8, field % 2 != 0, Be32(data[off + 4], data[off + 5], data[off + 6], data[off + 7]))
  }

  /** The length of the extension header at `off`, if its fixed part is inside the packet. */
  function HeaderLength(data: Bytes, kind: byte, off: nat, end: nat): (r: Option<nat>)
    requires end <= |data| && Extension(kind)
    ensures r.Some? ==> r.value >= 8 && off + 2 <= end && (kind == FRAGMENT ==> off + 8 <= end)
  {
    if kind == FRAGMENT then (if off + 8 <= end then Some(8) else None)
    else if off + 2 > end then None
    else if kind == AUTH then Some(4 * (data[off + 1] as nat + 2))
    else Some(8 * (data[off + 1] as nat + 1))
  }

  /** The ports of the upper layer, or None if its header is cut short. */
  function Upper(proto: byte, payload: Bytes, fragment: Option<Fragment>): Option<Ports> {
    if proto == ESP || (fragment.Some? && fragment.value.offset != 0) then Some(NO_PORTS)
    else if proto != TCP && proto != UDP then Some(NO_PORTS)
    else if fragment.Some? && fragment.value.more && |payload| < 4 then Some(NO_PORTS)
    else if !(fragment.Some? && fragment.value.more) && |payload| < (if proto == TCP then 20 else 8) then None
    else Some(Ports(Be16(payload[0], payload[1]), Be16(payload[2], payload[3])))
  }

  /** What the walker finds from a header of the given kind on, with so many rounds left. */
  datatype Found = Found(proto: byte, off: nat, fragment: Option<Fragment>, ports: Ports)

  function Walk(data: Bytes, kind: byte, off: nat, end: nat, fragment: Option<Fragment>, left: nat): Option<Found>
    requires off <= end <= |data|
    decreases end - off
  {
    if left == 0 then None
    else if Extension(kind) then
      var len := HeaderLength(data, kind, off, end);
      if len.None? || off + len.value > end then None
      else Walk(data, data[off], off + len.value, end,
                if kind == FRAGMENT then Some(FragmentAt(data, off)) else fragment, left - 1)
    else
      var ports := Upper(kind, data[off..end], fragment);
      if ports.None? then None else Some(Found(kind, off, fragment, ports.value))
  }

  function PacketEnd(data: Bytes): nat
    requires |data| >= 40
  {
    40 + Be16(data[4], data[5])
  }

  /** A version-6 packet whose payload length is within the data. */
  predicate BaseHeader(data: Bytes) {
    |data| >= 40 && data[0] / 16 == 6 && PacketEnd(data) <= |data|
  }

  function InfoOf(data: Bytes, f: Found): V6Info
    requires |data| >= 40
  {
    V6Info(f.proto, data[8..24], data[24..40], f.ports, f.off, PacketEnd(data), f.fragment)
  }

  function Parse(data: Bytes): Option<V6Info> {
    if !BaseHeader(data) then None
    else
      var f := Walk(data, data[6], 40, PacketEnd(data), None, MAX_HEADERS);
      if f.None? then None else Some(InfoOf(data, f.value))
  }

  /** The end of the chain: reads the ports, unless the upper header is cut short or in another fragment. */
  method FinishUpper(data: Bytes, start: V6Info, nextHeader: byte, offset: nat, packetEnd: nat)
    returns (info: V6Info, ok: bool)
    requires offset <= packetEnd <= |data| && !Extension(nextHeader) && start.ports == NO_PORTS
    ensures ok == Upper(nextHeader, data[offset..packetEnd], start.fragment).Some?
    ensures ok ==> info == start.(proto := nextHeader, l4Off := offset, packetEnd := packetEnd,
                                  ports := Upper(nextHeader, data[offset..packetEnd], start.fragment).value)
  {
    info := start.(proto := nextHeader, l4Off := offset, packetEnd := packetEnd);
    if nextHeader == 50 {
      return info, true;
    }
    if info.fragment.Some? && info.fragment.value.offset != 0 {
      return info, true;
    }
    if info.fragment.Some? && info.fragment.value.more {
      if offset + 4 <= packetEnd && (nextHeader == 6 || nextHeader == 17) {
        info := info.(ports := Ports(Be16(data[offset], data[offset + 1]), Be16(data[offset + 2], data[offset + 3])));
      }
      return info, true;
    }
    if nextHeader == 6 && offset + 20 > packetEnd {
      return info, false;
    }
    if nextHeader == 17 && offset + 8 > packetEnd {
      return info, false;
    }
    if nextHeader == 6 || nextHeader == 17 {
      info := info.(ports := Ports(Be16(data[offset], data[offset + 1]), Be16(data[offset + 2], data[offset + 3])));
    }
    return info, true;
  }

  /** Skips the extension header at `offset`: what comes next, where, and the fragment header if it is one. */
  method SkipHeader(data: Bytes, kind: byte, offset: nat, packetEnd: nat, before: Option<Fragment>)
    returns (nextHeader: byte, after: nat, fragment: Option<Fragment>, ok: bool)
    requires offset <= packetEnd <= |data| && Extension(kind)
    ensures ok == HeaderLength(data, kind, offset, packetEnd).Some?
    ensures ok ==> after == offset + HeaderLength(data, kind, offset, packetEnd).value && nextHeader == data[offset]
    ensures ok ==> fragment == if kind == FRAGMENT then Some(FragmentAt(data, offset)) else before
  {
    nextHeader, after, fragment := kind, offset, before;
    if kind == 44 {
      if offset + 8 > packetEnd {
        return nextHeader, after, fragment, false;
      }
      var fragmentField := Be16(data[offset + 2], data[offset + 3]);
      fragment := Some(Fragment(fragmentField / 8 * 8, fragmentField % 2 != 0,
                       Be32(data[offset + 4], data[offset + 5], data[offset + 6], data[offset + 7])));
      return data[offset], offset + 8, fragment, true;
    }
    if offset + 2 > packetEnd {
      return nextHeader, after, fragment, false;
    }
    if kind == 51 {
      return data[offset], offset + (data[offset + 1] as nat + 2) * 4, fragment, true;
    }
    return data[offset], offset + (data[offset + 1] as nat + 1) * 8, fragment, true;
  }

  /** Skips extension headers, at most so many, and reads the ports. */
  method WalkHeaders(data: Bytes, kind: byte, packetEnd: nat, start: V6Info) returns (info: V6Info, ok: bool)
    requires 40 <= packetEnd <= |data| && start.fragment == None && start.ports == NO_PORTS
    ensures var f := Walk(data, kind, 40, packetEnd, None, MAX_HEADERS);
            && ok == f.Some?
            && (ok ==> info == start.(proto := f.value.proto, l4Off := f.value.off, packetEnd := packetEnd,
                                      fragment := f.value.fragment, ports := f.value.ports))
  {
    info := start;
    var nextHeader, offset: nat := kind, 40;
    for round := 0 to MAX_HEADERS
      invariant offset <= packetEnd && info == start.(fragment := info.fragment)
      invariant Walk(data, kind, 40, packetEnd, None, MAX_HEADERS)
             == Walk(data, nextHeader, offset, packetEnd, info.fragment, MAX_HEADERS - round)
    {
      if !Extension(nextHeader) {
        info, ok := FinishUpper(data, info, nextHeader, offset, packetEnd);
        return info, ok;
      }
      var fragment, skipped;
      nextHeader, offset, fragment, skipped := SkipHeader(data, nextHeader, offset, packetEnd, info.fragment);
      if !skipped || offset > packetEnd {
        return info, false;
      }
      info := info.(fragment := fragment);
    }
    return info, false;
  }

  method ParseV6Header(data: Bytes) returns (info: V6Info, ok: bool)
    ensures ok == Parse(data).Some?
    ensures ok ==> info == Parse(data).value
  {
    info := V6Info(0, [], [], NO_PORTS, 0, 0, None);
    if |data| < 40 {
      return info, false;
    }
    if data[0] / 16 != 6 {
      return info, false;
    }
    var packetEnd := 40 + Be16(data[4], data[5]);
    if packetEnd > |data| {
      return info, false;
    }
    info := info.(src := data[8..24], dst := data[24..40]);
    info, ok := WalkHeaders(data, data[6], packetEnd, info);
  }

  // ----- chains as they are built

  /** An upper layer and its octets, or an extension header with its octets after the next-header octet. */
  datatype Chain = End(proto: byte, payload: Bytes) | Ext(header: byte, rest: Bytes, next: Chain)

  predicate WellFormedHeader(kind: byte, rest: Bytes) {
    && Extension(kind) && |rest| >= 7
    && (Options(kind) ==> |rest| + 1 == 8 * (rest[0] as nat + 1))
    && (kind == AUTH ==> |rest| + 1 == 4 * (rest[0] as nat + 2))
    && (kind == FRAGMENT ==> |rest| == 7)
  }

  predicate WellFormed(c: Chain) {
    match c
    case End(proto, _) => !Extension(proto)
    case Ext(kind, rest, next) => WellFormedHeader(kind, rest) && WellFormed(next)
  }

  function Kind(c: Chain): byte {
    match c
    case End(proto, _) => proto
    case Ext(kind, _, _) => kind
  }

  function Encode(c: Chain): Bytes {
    match c
    case End(_, payload) => payload
    case Ext(_, rest, next) => [Kind(next)] + rest + Encode(next)
  }

  /** How many extension headers, and how many octets they take. */
  function Count(c: Chain): nat {
    match c
    case End(_, _) => 0
    case Ext(_, _, next) => 1 + Count(next)
  }

  function Lengths(c: Chain): nat {
    match c
    case End(_, _) => 0
    case Ext(_, rest, next) => 1 + |rest| + Lengths(next)
  }

  function UpperOf(c: Chain): (u: Chain)
    ensures u.End?
  {
    match c
    case End(_, _) => c
    case Ext(_, _, next) => UpperOf(next)
  }

  function NextFragment(kind: byte, rest: Bytes, before: Option<Fragment>): Option<Fragment>
    requires WellFormedHeader(kind, rest)
  {
    if kind == FRAGMENT then Some(FragmentAt([0] + rest, 0)) else before
  }

  /** The last fragment header counts. */
  function FragmentOf(c: Chain, before: Option<Fragment>): Option<Fragment>
    requires WellFormed(c)
  {
    match c
    case End(_, _) => before
    case Ext(kind, rest, next) => FragmentOf(next, NextFragment(kind, rest, before))
  }

  /** What there is to find in a chain. */
  function Expected(c: Chain, off: nat, before: Option<Fragment>): Option<Found>
    requires WellFormed(c)
  {
    var fragment, upper := FragmentOf(c, before), UpperOf(c);
    var ports := Upper(upper.proto, upper.payload, fragment);
    if ports.None? then None else Some(Found(upper.proto, off + Lengths(c), fragment, ports.value))
  }

  /** The data holds these octets from `off` up to the packet's end. */
  ghost predicate Holds(data: Bytes, off: nat, end: nat, octets: Bytes) {
    off <= end <= |data| && data[off..end] == octets
  }

  /** Where the octets of one header and of what follows it are. */
  lemma {:induction false} HeaderOctets(data: Bytes, off: nat, end: nat, next: byte, rest: Bytes, more: Bytes)
    requires Holds(data, off, end, [next] + rest + more)
    ensures off + 1 + |rest| <= end && Holds(data, off + 1 + |rest|, end, more)
    ensures data[off] == next && forall i :: 0 <= i < |rest| ==> data[off + 1 + i] == rest[i]
  {
    var octets := data[off..end];
    assert octets[0] == next;
    forall i | 0 <= i < |rest|
      ensures data[off + 1 + i] == rest[i]
    {
      assert octets[1 + i] == rest[i];
    }
    assert octets[1 + |rest|..] == more;
    assert data[off + 1 + |rest|..end] == octets[1 + |rest|..];
  }

  lemma {:induction false} SameFragment(data: Bytes, off: nat, rest: Bytes)
    requires |rest| == 7 && off + 8 <= |data| && forall i :: 0 <= i < |rest| ==> data[off + 1 + i] == rest[i]
    ensures FragmentAt(data, off) == FragmentAt([0] + rest, 0)
  {
    assert data[off + 2] == rest[1] && data[off + 3] == rest[2] && data[off + 4] == rest[3];
    assert data[off + 5] == rest[4] && data[off + 6] == rest[5] && data[off + 7] == rest[6];
  }

  /** The walker takes one header off, if it has a round left. */
  lemma {:induction false} WalkOne(data: Bytes, off: nat, end: nat, kind: byte, rest: Bytes, next: byte, more: Bytes,
                                   before: Option<Fragment>, left: nat)
    requires WellFormedHeader(kind, rest) && Holds(data, off, end, [next] + rest + more) && left > 0
    ensures off + 1 + |rest| <= end && Holds(data, off + 1 + |rest|, end, more)
    ensures Walk(data, kind, off, end, before, left)
         == Walk(data, next, off + 1 + |rest|, end, NextFragment(kind, rest, before), left - 1)
  {
    HeaderOctets(data, off, end, next, rest, more);
    assert data[off + 1] == rest[0];
    if kind == FRAGMENT {
      SameFragment(data, off, rest);
    }
    assert HeaderLength(data, kind, off, end) == Some(1 + |rest|);
  }

  lemma {:induction false} WalkEnds(data: Bytes, off: nat, end: nat, proto: byte, payload: Bytes,
                                    before: Option<Fragment>, left: nat)
    requires !Extension(proto) && Holds(data, off, end, payload) && left > 0
    ensures Walk(data, proto, off, end, before, left) == Expected(End(proto, payload), off, before)
  {
  }

  /** What a walk through a chain answers. */
  function Result(c: Chain, off: nat, before: Option<Fragment>, left: nat): Option<Found>
    requires WellFormed(c)
  {
    if Count(c) < left then Expected(c, off, before) else None
  }

  lemma {:induction false} ResultCons(kind: byte, rest: Bytes, next: Chain, off: nat, before: Option<Fragment>,
                                      left: nat)
    requires WellFormed(Ext(kind, rest, next)) && left > 0
    ensures Result(Ext(kind, rest, next), off, before, left)
         == Result(next, off + 1 + |rest|, NextFragment(kind, rest, before), left - 1)
  {
  }

  ghost predicate Finds(data: Bytes, off: nat, end: nat, c: Chain, before: Option<Fragment>, left: nat)
    requires off <= end <= |data| && WellFormed(c)
  {
    Walk(data, Kind(c), off, end, before, left) == Result(c, off, before, left)
  }

  lemma {:induction false} FindsCons(data: Bytes, off: nat, end: nat, kind: byte, rest: Bytes, next: Chain,
                                     before: Option<Fragment>, left: nat)
    requires WellFormed(Ext(kind, rest, next)) && left > 0
    requires Holds(data, off, end, Encode(Ext(kind, rest, next)))
    ensures off + 1 + |rest| <= end && Holds(data, off + 1 + |rest|, end, Encode(next))
    ensures Finds(data, off + 1 + |rest|, end, next, NextFragment(kind, rest, before), left - 1) ==>
              Finds(data, off, end, Ext(kind, rest, next), before, left)
  {
    WalkOne(data, off, end, kind, rest, Kind(next), Encode(next), before, left);
    ResultCons(kind, rest, next, off, before, left);
  }

  /** The walker finds what is in a chain of fewer headers than it has rounds, and nothing in a longer one. */
  lemma {:induction false} WalkFinds(data: Bytes, off: nat, end: nat, c: Chain, before: Option<Fragment>, left: nat)
    requires WellFormed(c) && Holds(data, off, end, Encode(c))
    ensures Finds(data, off, end, c, before, left)
    decreases c
  {
    if left > 0 {
      match c
      case End(proto, payload) =>
        WalkEnds(data, off, end, proto, payload, before, left);
      case Ext(kind, rest, next) =>
        FindsCons(data, off, end, kind, rest, next, before, left);
        WalkFinds(data, off + 1 + |rest|, end, next, NextFragment(kind, rest, before), left - 1);
    }
  }

  /**
   * A packet whose base header announces a chain of extension headers and is followed by it: with at most 11
   * headers the walker answers the upper protocol, its offset, its ports and the last fragment header,
   * and rejects a cut-off upper header; 12 headers or more it rejects. Octets after the packet do not matter.
   */
  lemma {:induction false} ParsesBuilt(base: Bytes, c: Chain, padding: Bytes)
    requires |base| == 40 && base[0] / 16 == 6 && WellFormed(c) && base[6] == Kind(c)
    requires Be16(base[4], base[5]) == |Encode(c)|
    ensures var ports := Upper(UpperOf(c).proto, UpperOf(c).payload, FragmentOf(c, None));
            Parse(base + Encode(c) + padding)
            == if Count(c) > 11 || ports.None? then None
               else Some(V6Info(UpperOf(c).proto, base[8..24], base[24..40], ports.value, 40 + Lengths(c),
                                40 + |Encode(c)|, FragmentOf(c, None)))
  {
    var octets := Encode(c);
    var data := base + octets + padding;
    assert data[..40] == base;
    assert forall i :: 0 <= i < 40 ==> data[i] == base[i];
    assert data[8..24] == base[8..24] && data[24..40] == base[24..40];
    assert data[40..40 + |octets|] == octets;
    WalkFinds(data, 40, 40 + |octets|, c, None, MAX_HEADERS);
  }

  // ----- ports and fragments as they are built

  /** A fragment header behind its next-header octet: offset in units of 8 octets, two reserved bits, the flag. */
  function FragmentRest(reserved: byte, units: nat, bits: nat, more: bool, id: uint32): Bytes
    requires units < 0x2000 && bits < 4
  {
    [reserved] + Put16(8 * units + 2 * bits + if more then 1 else 0) + Put32(id)
  }

  /** The fragment header read last is the one that counts, as it was built. */
  lemma {:induction false} FragmentIsRead(reserved: byte, units: nat, bits: nat, more: bool, id: uint32,
                                          before: Option<Fragment>)
    requires units < 0x2000 && bits < 4
    ensures var rest := FragmentRest(reserved, units, bits, more, id);
            WellFormedHeader(44, rest) && NextFragment(44, rest, before) == Some(Fragment(8 * units, more, id))
  {
    var field: uint16 := 8 * units + 2 * bits + if more then 1 else 0;
    FieldIsRead(reserved, field, id);
    FieldParts(units, bits, if more then 1 else 0);
  }

  lemma {:induction false} FieldIsRead(reserved: byte, field: uint16, id: uint32)
    ensures FragmentAt([0] + ([reserved] + Put16(field) + Put32(id)), 0) == Fragment(field / 8 * 8, field % 2 != 0, id)
  {
    var two, four := Put16(field), Put32(id);
    var data := [0 as byte] + ([reserved] + two + four);
    assert data[2] == two[0] && data[3] == two[1];
    assert data[4] == four[0] && data[5] == four[1] && data[6] == four[2] && data[7] == four[3];
  }

  lemma {:induction false} FieldParts(units: nat, bits: nat, flag: nat)
    requires bits < 4 && flag < 2
    ensures (8 * units + 2 * bits + flag) / 8 == units && (8 * units + 2 * bits + flag) % 2 == flag
  {
  }

  /** A packet with one more such header in front answers the same, farther behind. */
  lemma {:induction false} ExtensionIsSkipped(base: Bytes, bare: Bytes, kind: byte, rest: Bytes, c: Chain,
                                              padding: Bytes)
    requires |base| == 40 && |bare| == 40 && base[0] / 16 == 6 && bare[0] / 16 == 6 && base[8..] == bare[8..]
    requires WellFormed(c) && Count(c) <= 10 && bare[6] == Kind(c) && base[6] == kind && rest != []
    requires (kind in [0, 43, 60, 135] && 1 + |rest| == 8 * (rest[0] as nat + 1))
          || (kind == 51 && 1 + |rest| == 4 * (rest[0] as nat + 2))
    requires Be16(bare[4], bare[5]) == |Encode(c)| && Be16(base[4], base[5]) == 1 + |rest| + |Encode(c)|
    ensures var p := Parse(bare + Encode(c) + padding);
            var q := Parse(base + ([Kind(c)] + rest + Encode(c)) + padding);
            && (p.None? <==> q.None?)
            && (p.Some? ==> q.value == p.value.(l4Off := p.value.l4Off + 1 + |rest|,
                                                packetEnd := p.value.packetEnd + 1 + |rest|))
  {
    assert base[8..24] == base[8..][..16] && base[24..40] == base[8..][16..];
    assert bare[8..24] == bare[8..][..16] && bare[24..40] == bare[8..][16..];
    ParsesBuilt(bare, c, padding);
    ParsesBuilt(base, Ext(kind, rest, c), padding);
  }

  /** Not a fragment, or the first of a datagram. */
  predicate First(f: Option<Fragment>) {
    f.None? || f.value.offset == 0
  }

  /** Of a TCP or UDP header, at least so many octets must be there unless more fragments follow. */
  function Least(proto: byte): nat {
    if proto == 6 then 20 else 8
  }

  /**
   * A packet that ends in TCP or UDP: the ports are those its header starts with, source first, for any of them and
   * whatever follows; a header cut short is rejected, unless more fragments follow.
   */
  lemma {:induction false} PortsAreRead(base: Bytes, c: Chain, padding: Bytes, src: uint16, dst: uint16, rest: Bytes)
    requires |base| == 40 && base[0] / 16 == 6 && WellFormed(c) && base[6] == Kind(c) && Count(c) <= 11
    requires Be16(base[4], base[5]) == |Encode(c)| && (UpperOf(c).proto == 6 || UpperOf(c).proto == 17)
    requires UpperOf(c).payload == Put16(src) + Put16(dst) + rest && First(FragmentOf(c, None))
    ensures var f, proto := FragmentOf(c, None), UpperOf(c).proto;
            Parse(base + Encode(c) + padding)
            == if 4 + |rest| < Least(proto) && !(f.Some? && f.value.more) then None
               else Some(V6Info(proto, base[8..24], base[24..40], Ports(src, dst), 40 + Lengths(c),
                                40 + |Encode(c)|, f))
  {
    ParsesBuilt(base, c, padding);
    UpperReads(UpperOf(c).proto, UpperOf(c).payload, FragmentOf(c, None), src, dst, rest);
  }

  lemma {:induction false} UpperReads(proto: byte, payload: Bytes, f: Option<Fragment>, src: uint16, dst: uint16,
                                      rest: Bytes)
    requires (proto == 6 || proto == 17) && payload == Put16(src) + Put16(dst) + rest && First(f)
    ensures Upper(proto, payload, f)
         == if 4 + |rest| < Least(proto) && !(f.Some? && f.value.more) then None else Some(Ports(src, dst))
  {
    var s, d := Put16(src), Put16(dst);
    assert payload[0] == s[0] && payload[1] == s[1] && payload[2] == d[0] && payload[3] == d[1];
  }

  /** Behind a nonzero fragment offset, for ESP and for every other protocol there are no ports. */
  lemma {:induction false} OthersHaveNoPorts(base: Bytes, c: Chain, padding: Bytes)
    requires |base| == 40 && base[0] / 16 == 6 && WellFormed(c) && base[6] == Kind(c) && Count(c) <= 11
    requires Be16(base[4], base[5]) == |Encode(c)|
    requires !First(FragmentOf(c, None)) || (UpperOf(c).proto != 6 && UpperOf(c).proto != 17)
    ensures Parse(base + Encode(c) + padding)
         == Some(V6Info(UpperOf(c).proto, base[8..24], base[24..40], Ports(0, 0), 40 + Lengths(c), 40 + |Encode(c)|,
                        FragmentOf(c, None)))
  {
    ParsesBuilt(base, c, padding);
  }

  /** TCP or UDP with less than the two ports: none while more fragments follow, and otherwise rejected. */
  lemma {:induction false} CutPortsAreNone(base: Bytes, c: Chain, padding: Bytes)
    requires |base| == 40 && base[0] / 16 == 6 && WellFormed(c) && base[6] == Kind(c) && Count(c) <= 11
    requires Be16(base[4], base[5]) == |Encode(c)| && (UpperOf(c).proto == 6 || UpperOf(c).proto == 17)
    requires |UpperOf(c).payload| < 4 && First(FragmentOf(c, None))
    ensures var f := FragmentOf(c, None);
            Parse(base + Encode(c) + padding)
            == if !(f.Some? && f.value.more) then None
               else Some(V6Info(UpperOf(c).proto, base[8..24], base[24..40], Ports(0, 0), 40 + Lengths(c),
                                40 + |Encode(c)|, f))
  {
    ParsesBuilt(base, c, padding);
  }

  lemma {:induction false} HeaderSplits(data: Bytes, off: nat, len: nat, end: nat)
    requires 0 < len && off + len <= end <= |data|
    ensures data[off..end] == [data[off]] + data[off + 1..off + len] + data[off + len..end]
  {
  }

  /** Whatever the walker accepts is such a chain. */
  lemma {:induction false} WalkedIsChain(data: Bytes, kind: byte, off: nat, end: nat, before: Option<Fragment>,
                                         left: nat)
    returns (c: Chain)
    requires off <= end <= |data| && Walk(data, kind, off, end, before, left).Some?
    ensures WellFormed(c) && Count(c) < left && Kind(c) == kind && Holds(data, off, end, Encode(c))
    decreases left
  {
    if Extension(kind) {
      var len := HeaderLength(data, kind, off, end).value;
      var fragment := if kind == FRAGMENT then Some(FragmentAt(data, off)) else before;
      var next := WalkedIsChain(data, data[off], off + len, end, fragment, left - 1);
      var rest := data[off + 1..off + len];
      assert rest[0] == data[off + 1];
      c := Ext(kind, rest, next);
      HeaderSplits(data, off, len, end);
    } else {
      c := End(kind, data[off..end]);
    }
  }

  /** Whatever the parser accepts is a base header, a chain of at most 11 extension headers, and padding. */
  lemma {:induction false} ParsedIsBuilt(data: Bytes) returns (c: Chain)
    requires Parse(data).Some?
    ensures BaseHeader(data) && WellFormed(c) && Count(c) <= 11 && data[6] == Kind(c)
    ensures data == data[..40] + Encode(c) + data[PacketEnd(data)..]
    ensures Parse(data).value.proto == UpperOf(c).proto && Parse(data).value.l4Off == 40 + Lengths(c)
    ensures Upper(UpperOf(c).proto, UpperOf(c).payload, FragmentOf(c, None)) == Some(Parse(data).value.ports)
  {
    var end := PacketEnd(data);
    c := WalkedIsChain(data, data[6], 40, end, None, MAX_HEADERS);
    WalkFinds(data, 40, end, c, None, MAX_HEADERS);
    assert data == data[..40] + data[40..end] + data[end..];
  }
}
