/**
 * The builders of answers to intercepted DNS queries, written into a byte buffer: an IPv4 answer reuses the
 * query's header (section 3.1 of RFC 791), an IPv6 answer has a new one (section 3 of RFC 8200), both with the
 * addresses and ports swapped. Proved: a receiver finds every checksum right.
 */
module DnsResponse {
  import opened Wire
  import opened Checksum
  import V6Header

  method CopyAt(dst: array<byte>, at: nat, src: Bytes)
    requires at + |src| <= dst.Length
    modifies dst
    ensures forall i :: at <= i < at + |src| ==> dst[i] == src[i - at]
    ensures forall i :: 0 <= i < dst.Length && !(at <= i < at + |src|) ==> dst[i] == old(dst[i])
  {
    for i := 0 to |src|
      invariant forall j :: at <= j < at + i ==> dst[j] == src[j - at]
      invariant forall j :: 0 <= j < dst.Length && !(at <= j < at + i) ==> dst[j] == old(dst[j])
    {
      dst[at + i] := src[i];
    }
  }

  method PutAt(dst: array<byte>, at: nat, n: uint16)
    requires at + 2 <= dst.Length
    modifies dst
    ensures Be16(dst[at], dst[at + 1]) == n
    ensures forall i :: 0 <= i < dst.Length && i != at && i != at + 1 ==> dst[i] == old(dst[i])
  {
    var octets := Put16(n);
    dst[at], dst[at + 1] := octets[0], octets[1];
  }

  method Copy4(dst: array<byte>, at: nat, src: Bytes, from: nat)
    requires at + 4 <= dst.Length && from + 4 <= |src|
    modifies dst
    ensures dst[at] == src[from] && dst[at + 1] == src[from + 1]
    ensures dst[at + 2] == src[from + 2] && dst[at + 3] == src[from + 3]
    ensures forall i :: 0 <= i < dst.Length && !(at <= i < at + 4) ==> dst[i] == old(dst[i])
  {
    CopyAt(dst, at, src[from..from + 4]);
  }

  /** Nothing but the two octets at `at` differs. */
  ghost predicate SameBut(s: Bytes, t: Bytes, at: nat) {
    |s| == |t| && forall i :: 0 <= i < |s| && i != at && i != at + 1 ==> s[i] == t[i]
  }

  /** Puts the checksum into a header whose checksum field is zero. */
  method SumHead4(p: array<byte>, ipHeaderLen: nat)
    requires 20 <= ipHeaderLen <= 60 && ipHeaderLen <= p.Length && p[10] == 0 && p[11] == 0
    modifies p
    ensures SameBut(old(p[..ipHeaderLen]), p[..ipHeaderLen], 10) && OnesSum(p[..ipHeaderLen]) == ONES
  {
    var h := p[..ipHeaderLen];
    var c := CalculateChecksum(h);
    PutAt(p, 10, c);
    ghost var t := p[..ipHeaderLen];
    assert FieldFilled(h, t, 10);
    ChecksumVerifies(h, t, 10, c);
  }

  lemma {:induction false} FilledBehind(front: Bytes, s: Bytes, t: Bytes, at: nat)
    requires FieldFilled(s, t, at) && |front| % 2 == 0
    ensures FieldFilled(front + s, front + t, |front| + at)
    ensures (front + t)[|front| + at] == t[at] && (front + t)[|front| + at + 1] == t[at + 1]
  {
  }

  /** Puts the checksum into the datagram from `off` on, whose checksum field is zero; 0 is sent as all ones. */
  method SumUdp(p: array<byte>, off: nat, pseudoHeader: Bytes)
    requires off + 8 <= p.Length && |pseudoHeader| % 2 == 0 && p[off + 6] == 0 && p[off + 7] == 0
    requires |pseudoHeader| + p.Length - off <= SAFE_LENGTH
    modifies p
    ensures forall i :: 0 <= i < off ==> p[i] == old(p[i])
    ensures SameBut(old(p[off..]), p[off..], 6) && Be16(p[off + 6], p[off + 7]) != 0
    ensures OnesSum(pseudoHeader + p[off..]) == ONES
  {
    var u := p[off..];
    var c := CalculateChecksum(pseudoHeader + u);
    if c == 0 {
      c := 0xffff;
    }
    PutAt(p, off + 6, c);
    ghost var t := p[off..];
    assert FieldFilled(u, t, 6);
    FilledBehind(pseudoHeader, u, t, 6);
    ChecksumVerifies(pseudoHeader + u, pseudoHeader + t, |pseudoHeader| + 6, c);
  }

  // ----- IPv4

  function HeaderLen(q: Bytes): nat
    requires q != []
  {
    (q[0] % 16) as nat * 4
  }

  /** What the interceptor has checked of a query. */
  predicate Query4(q: Bytes) {
    q != [] && HeaderLen(q) >= 20 && |q| >= HeaderLen(q) + 8
  }

  /** The header of an answer: the query's but for the length, the checksum, and the addresses, which are swapped. */
  ghost predicate IsHead4(q: Bytes, total: uint16, h: Bytes)
    requires Query4(q)
  {
    && |h| == HeaderLen(q) && Be16(h[2], h[3]) == total
    && h[12] == q[16] && h[13] == q[17] && h[14] == q[18] && h[15] == q[19]
    && h[16] == q[12] && h[17] == q[13] && h[18] == q[14] && h[19] == q[15]
    && forall i :: 0 <= i < |h| && i != 2 && i != 3 && !(10 <= i < 20) ==> h[i] == q[i]
  }

  /** The ports of a query, exchanged. */
  function SwappedPorts(q: Bytes): (ports: Bytes)
    requires Query4(q)
    ensures |ports| == 4
  {
    var at := HeaderLen(q);
    [q[at + 2], q[at + 3], q[at], q[at + 1]]
  }

  /** The datagram of an answer: its ports, its length, the message; any checksum. */
  ghost predicate IsUdp4(ports: Bytes, length: uint16, dnsResp: Bytes, u: Bytes)
    requires |ports| == 4
  {
    && |u| == 8 + |dnsResp| && Be16(u[4], u[5]) == length
    && u[0] == ports[0] && u[1] == ports[1] && u[2] == ports[2] && u[3] == ports[3]
    && u[8..] == dnsResp
  }

  /** Both addresses, the protocol, and the datagram's length field (RFC 768). */
  function PseudoHeader4(addresses: Bytes, length: uint16): (s: Bytes)
    requires |addresses| == 8
    ensures |s| == 12 && |s| % 2 == 0
  {
    addresses + [0, 17] + Put16(length)
  }

  /** Octet by octet. */
  lemma {:induction false} HeadOctets4(q: Bytes, total: uint16, p: Bytes, h: Bytes)
    requires Query4(q) && |p| >= |h| == HeaderLen(q) && forall i :: 0 <= i < |h| ==> h[i] == p[i]
    requires Be16(p[2], p[3]) == total
    requires p[12] == q[16] && p[13] == q[17] && p[14] == q[18] && p[15] == q[19]
    requires p[16] == q[12] && p[17] == q[13] && p[18] == q[14] && p[19] == q[15]
    requires forall i :: 0 <= i < |h| && i != 2 && i != 3 && !(10 <= i < 20) ==> p[i] == q[i]
    ensures IsHead4(q, total, h)
  {
  }

  /** Puts both addresses in each other's places. */
  method SwapAddresses4(p: array<byte>, q: Bytes)
    requires p.Length >= 20 && |q| >= 20
    modifies p
    ensures p[12] == q[16] && p[13] == q[17] && p[14] == q[18] && p[15] == q[19]
    ensures p[16] == q[12] && p[17] == q[13] && p[18] == q[14] && p[19] == q[15]
    ensures forall i :: 0 <= i < p.Length && !(12 <= i < 20) ==> p[i] == old(p[i])
  {
    Copy4(p, 12, q, 16);
    Copy4(p, 16, q, 12);
  }

  method WriteHead4(p: array<byte>, q: Bytes, total: uint16)
    requires Query4(q) && p.Length >= HeaderLen(q) + 8
    modifies p
    ensures IsHead4(q, total, p[..HeaderLen(q)]) && p[10] == 0 && p[11] == 0
  {
    var ipHeaderLen := HeaderLen(q);
    CopyAt(p, 0, q[..ipHeaderLen]);
    assert forall i :: 0 <= i < ipHeaderLen ==> p[i] == q[i];
    SwapAddresses4(p, q);
    PutAt(p, 2, total);
    p[10] := 0;
    p[11] := 0;
    HeadOctets4(q, total, p[..], p[..ipHeaderLen]);
  }

  /** Puts the ports in each other's places, behind the header. */
  method SwapPorts4(p: array<byte>, q: Bytes)
    requires Query4(q) && p.Length >= HeaderLen(q) + 8
    modifies p
    ensures var at := HeaderLen(q);
            && p[at] == q[at + 2] && p[at + 1] == q[at + 3] && p[at + 2] == q[at] && p[at + 3] == q[at + 1]
            && forall i :: 0 <= i < p.Length && !(at <= i < at + 8) ==> p[i] == old(p[i])
  {
    var ipHeaderLen := HeaderLen(q);
    CopyAt(p, ipHeaderLen, q[ipHeaderLen..ipHeaderLen + 8]);
    p[ipHeaderLen], p[ipHeaderLen + 1] := q[ipHeaderLen + 2], q[ipHeaderLen + 3];
    p[ipHeaderLen + 2], p[ipHeaderLen + 3] := q[ipHeaderLen], q[ipHeaderLen + 1];
  }

  method WriteUdp4(p: array<byte>, q: Bytes, length: uint16, dnsResp: Bytes)
    requires Query4(q) && p.Length == HeaderLen(q) + 8 + |dnsResp|
    modifies p
    ensures forall i :: 0 <= i < HeaderLen(q) ==> p[i] == old(p[i])
    ensures IsUdp4(SwappedPorts(q), length, dnsResp, p[HeaderLen(q)..])
    ensures p[HeaderLen(q) + 6] == 0 && p[HeaderLen(q) + 7] == 0
  {
    var ipHeaderLen := HeaderLen(q);
    SwapPorts4(p, q);
    PutAt(p, ipHeaderLen + 4, length);
    CopyAt(p, ipHeaderLen + 8, dnsResp);
    p[ipHeaderLen + 6] := 0;
    p[ipHeaderLen + 7] := 0;
    ghost var u := p[ipHeaderLen..];
    assert forall i :: 0 <= i < |u| ==> u[i] == p[ipHeaderLen + i];
    assert u[8..] == dnsResp;
  }

  lemma {:induction false} FilledHead4(q: Bytes, total: uint16, before: Bytes, h: Bytes)
    requires Query4(q) && IsHead4(q, total, before) && SameBut(before, h, 10)
    ensures IsHead4(q, total, h)
  {
  }

  lemma {:induction false} FilledUdp4(ports: Bytes, length: uint16, dnsResp: Bytes, before: Bytes, u: Bytes)
    requires |ports| == 4 && IsUdp4(ports, length, dnsResp, before) && SameBut(before, u, 6)
    ensures IsUdp4(ports, length, dnsResp, u)
  {
  }

  /** The header with its checksum. */
  method FinishHead4(p: array<byte>, q: Bytes, total: uint16)
    requires Query4(q) && p.Length >= HeaderLen(q) + 8
    modifies p
    ensures IsHead4(q, total, p[..HeaderLen(q)]) && OnesSum(p[..HeaderLen(q)]) == ONES
  {
    var ipHeaderLen := HeaderLen(q);
    WriteHead4(p, q, total);
    ghost var before := p[..ipHeaderLen];
    SumHead4(p, ipHeaderLen);
    FilledHead4(q, total, before, p[..ipHeaderLen]);
  }

  /** A finished datagram behind a pseudo-header. */
  ghost predicate Sent4(ports: Bytes, dnsResp: Bytes, length: uint16, pseudoHeader: Bytes, u: Bytes)
    requires |ports| == 4
  {
    IsUdp4(ports, length, dnsResp, u) && Be16(u[6], u[7]) != 0 && OnesSum(pseudoHeader + u) == ONES
  }

  /** Puts the checksum into a datagram behind `off` octets. */
  method FinishUdp4(p: array<byte>, off: nat, ghost ports: Bytes, length: uint16, dnsResp: Bytes, pseudoHeader: Bytes)
    requires p.Length == off + 8 + |dnsResp| && |dnsResp| <= 0xffff && |pseudoHeader| == 12 && |ports| == 4
    requires IsUdp4(ports, length, dnsResp, p[off..]) && p[off + 6] == 0 && p[off + 7] == 0
    modifies p
    ensures forall i :: 0 <= i < off ==> p[i] == old(p[i])
    ensures Sent4(ports, dnsResp, length, pseudoHeader, p[off..])
  {
    ghost var before := p[off..];
    SumUdp(p, off, pseudoHeader);
    FilledUdp4(ports, length, dnsResp, before, p[off..]);
  }

  /** What a receiver of an IPv4 answer finds: every field in place, and both sums right. */
  ghost predicate Answers4(q: Bytes, dnsResp: Bytes, h: Bytes, u: Bytes)
    requires Query4(q)
  {
    && IsHead4(q, (|h| + |u|) % 0x1_0000, h) && OnesSum(h) == ONES
    && IsUdp4(SwappedPorts(q), |u| % 0x1_0000, dnsResp, u) && Be16(u[6], u[7]) != 0
    && OnesSum(PseudoHeader4(h[12..20], Be16(u[4], u[5])) + u) == ONES
  }

  lemma {:induction false} Answered4(q: Bytes, dnsResp: Bytes, total: uint16, length: uint16, h: Bytes, u: Bytes)
    requires Query4(q) && total == (|h| + |u|) % 0x1_0000 && IsHead4(q, total, h) && OnesSum(h) == ONES
    requires length == |u| % 0x1_0000 && Sent4(SwappedPorts(q), dnsResp, length, PseudoHeader4(h[12..20], length), u)
    ensures Answers4(q, dnsResp, h, u)
  {
  }

  /** The octets of a pseudo-header: an even number of address octets, then words. */
  lemma {:induction false} TailSum(addresses: Bytes, tail: Bytes, u: Bytes)
    requires |addresses| % 2 == 0 && |tail| % 2 == 0
    ensures WordSum(addresses + tail + u) == WordSum(addresses) + WordSum(tail) + WordSum(u)
  {
    WordSumConcat(addresses, tail);
    WordSumConcat(addresses + tail, u);
  }

  lemma {:induction false} FourOctets(s: Bytes)
    requires |s| == 4
    ensures WordSum(s) == Be16(s[0], s[1]) + Be16(s[2], s[3])
  {
    assert SumTo(s, 0) == 0 && SumTo(s, 2) == Be16(s[0], s[1]);
  }

  /** To a receiver, the words of both addresses, 17, the length field and the datagram's words fold to all ones. */
  lemma {:induction false} ReceiverAccepts4(q: Bytes, dnsResp: Bytes, h: Bytes, u: Bytes)
    requires Query4(q) && Answers4(q, dnsResp, h, u)
    ensures Folded(WordSum(h[12..20]) + 17 + Be16(u[4], u[5]) + WordSum(u)) == ONES
  {
    var length: uint16, pseudoHeader := Be16(u[4], u[5]), PseudoHeader4(h[12..20], Be16(u[4], u[5]));
    var tail := [0 as byte, 17] + Put16(length);
    FourOctets(tail);
    assert pseudoHeader == h[12..20] + tail;
    TailSum(h[12..20], tail, u);
    OnesSumFolds(pseudoHeader + u);
  }

  /** The two ends of an IPv4 packet that carries UDP: addresses, and ports as numbers. */
  datatype Ends = Ends(src: Bytes, dst: Bytes, srcPort: nat, dstPort: nat)

  function EndsOf(packet: Bytes): Ends
    requires Query4(packet)
  {
    var at := HeaderLen(packet);
    Ends(packet[12..16], packet[16..20], Be16(packet[at], packet[at + 1]), Be16(packet[at + 2], packet[at + 3]))
  }

  /** The packet goes back from where the query went, announces the given lengths, and carries the message. */
  ghost predicate ReadsBack4(q: Bytes, dnsResp: Bytes, total: uint16, length: uint16, p: Bytes)
    requires Query4(q)
  {
    var at := HeaderLen(q);
    && Query4(p) && HeaderLen(p) == at && p[at + 8..] == dnsResp
    && EndsOf(p) == Ends(EndsOf(q).dst, EndsOf(q).src, EndsOf(q).dstPort, EndsOf(q).srcPort)
    && Be16(p[2], p[3]) == total && Be16(p[at + 4], p[at + 5]) == length && Be16(p[at + 6], p[at + 7]) != 0
    && p[..2] == q[..2] && p[4..10] == q[4..10] && p[20..at] == q[20..at]
  }

  /**
   * An answer read as a packet goes from where the query went to back to where it came from, announces its own
   * lengths, and carries the message; every other octet of its header is the query's.
   */
  lemma {:induction false} Answer4ReadsBack(q: Bytes, dnsResp: Bytes, h: Bytes, u: Bytes)
    requires Query4(q) && Answers4(q, dnsResp, h, u)
    ensures ReadsBack4(q, dnsResp, (|h| + |u|) % 0x1_0000, |u| % 0x1_0000, h + u) && |u| == 8 + |dnsResp|
  {
    FieldsReadBack(q, dnsResp, (|h| + |u|) % 0x1_0000, |u| % 0x1_0000, h, u);
  }

  lemma {:induction false} FieldsReadBack(q: Bytes, dnsResp: Bytes, total: uint16, length: uint16, h: Bytes, u: Bytes)
    requires Query4(q) && IsHead4(q, total, h) && IsUdp4(SwappedPorts(q), length, dnsResp, u) && Be16(u[6], u[7]) != 0
    ensures ReadsBack4(q, dnsResp, total, length, h + u)
  {
    var p, at, ports := h + u, |h|, SwappedPorts(q);
    HeadReadsBack(q, total, h, p);
    DatagramReadsBack(ports, length, dnsResp, p, at, u);
    assert EndsOf(p).srcPort == EndsOf(q).dstPort && EndsOf(p).dstPort == EndsOf(q).srcPort;
  }

  lemma {:induction false} HeadReadsBack(q: Bytes, total: uint16, h: Bytes, p: Bytes)
    requires Query4(q) && IsHead4(q, total, h) && |p| >= |h| + 8 && forall i :: 0 <= i < |h| ==> p[i] == h[i]
    ensures Query4(p) && HeaderLen(p) == HeaderLen(q) && Be16(p[2], p[3]) == total
    ensures p[12..16] == q[16..20] && p[16..20] == q[12..16]
    ensures p[..2] == q[..2] && p[4..10] == q[4..10] && p[20..|h|] == q[20..|h|]
  {
    assert p[0] == q[0];
    assert p[12] == q[16] && p[13] == q[17] && p[14] == q[18] && p[15] == q[19];
    assert p[16] == q[12] && p[17] == q[13] && p[18] == q[14] && p[19] == q[15];
  }

  lemma {:induction false} DatagramReadsBack(ports: Bytes, length: uint16, dnsResp: Bytes, p: Bytes, at: nat, u: Bytes)
    requires |ports| == 4 && IsUdp4(ports, length, dnsResp, u)
    requires |p| == at + |u| && forall i :: 0 <= i < |u| ==> p[at + i] == u[i]
    ensures p[at + 8..] == dnsResp && Be16(p[at + 4], p[at + 5]) == length
    ensures p[at] == ports[0] && p[at + 1] == ports[1] && p[at + 2] == ports[2] && p[at + 3] == ports[3]
    ensures Be16(p[at + 6], p[at + 7]) == Be16(u[6], u[7])
  {
    assert p[at..] == u && p[at + 8..] == u[8..];
  }

  /** Fills the buffer: first the header, whose checksum is final, then the datagram. */
  method FillAnswer4(p: array<byte>, q: Bytes, total: uint16, length: uint16, dnsResp: Bytes)
    requires Query4(q) && |dnsResp| <= 0xffff && p.Length == HeaderLen(q) + 8 + |dnsResp|
    modifies p
    ensures IsHead4(q, total, p[..HeaderLen(q)]) && OnesSum(p[..HeaderLen(q)]) == ONES
    ensures Sent4(SwappedPorts(q), dnsResp, length, PseudoHeader4(p[..HeaderLen(q)][12..20], length), p[HeaderLen(q)..])
  {
    var ipHeaderLen := HeaderLen(q);
    FinishHead4(p, q, total);
    ghost var h := p[..ipHeaderLen];
    var addresses := p[12..20];
    assert addresses == h[12..20];
    WriteUdp4(p, q, length, dnsResp);
    FinishUdp4(p, ipHeaderLen, SwappedPorts(q), length, dnsResp, PseudoHeader4(addresses, length));
    assert p[..ipHeaderLen] == h;
  }

  /** A DNS message has at most 65535 octets. */
  method BuildDnsResponsePacket(q: Bytes, dnsResp: Bytes) returns (p: array<byte>)
    requires Query4(q) && |dnsResp| <= 0xffff
    ensures fresh(p) && p.Length == HeaderLen(q) + 8 + |dnsResp|
    ensures Answers4(q, dnsResp, p[..HeaderLen(q)], p[HeaderLen(q)..])
  {
    var ipHeaderLen, udpLen := HeaderLen(q), 8 + |dnsResp|;
    var total: uint16, length: uint16 := (ipHeaderLen + udpLen) % 0x1_0000, udpLen % 0x1_0000;
    p := new byte[ipHeaderLen + udpLen](_ => 0);
    FillAnswer4(p, q, total, length, dnsResp);
    Answered4(q, dnsResp, total, length, p[..ipHeaderLen], p[ipHeaderLen..]);
  }

  // ----- IPv6

  predicate Query6(info: V6Header.V6Info) {
    |info.src| == 16 && |info.dst| == 16
  }

  /** A new header without extension headers, from the queried server to the client. */
  ghost predicate IsHead6(info: V6Header.V6Info, length: uint16, h: Bytes) {
    && |h| == 40 && h[0] == 0x60 && h[1] == 0 && h[2] == 0 && h[3] == 0 && Be16(h[4], h[5]) == length
    && h[6] == 17 && h[7] == 64 && h[8..24] == info.dst && h[24..40] == info.src
  }

  ghost predicate IsUdp6(info: V6Header.V6Info, length: uint16, dnsResp: Bytes, u: Bytes) {
    && |u| == 8 + |dnsResp| && Be16(u[4], u[5]) == length
    && Be16(u[0], u[1]) == info.ports.dst && Be16(u[2], u[3]) == info.ports.src
    && u[8..] == dnsResp
  }

  /** Both addresses, the datagram's length, and the protocol (section 8.1 of RFC 8200). */
  function PseudoHeader6(addresses: Bytes, length: uint32): (s: Bytes)
    requires |addresses| == 32
    ensures |s| == 40 && |s| % 2 == 0
  {
    addresses + Put32(length) + [0, 0, 0, 17]
  }

  /** What a receiver of an IPv6 answer finds. */
  ghost predicate Answers6(info: V6Header.V6Info, dnsResp: Bytes, h: Bytes, u: Bytes)
    requires Query6(info)
  {
    && |u| < 0x1_0000_0000
    && IsHead6(info, |u| % 0x1_0000, h)
    && IsUdp6(info, |u| % 0x1_0000, dnsResp, u) && Be16(u[6], u[7]) != 0
    && OnesSum(PseudoHeader6(h[8..40], |u|) + u) == ONES
  }

  /** Octet by octet. */
  lemma {:induction false} HeadOctets(info: V6Header.V6Info, length: uint16, h: Bytes)
    requires Query6(info) && |h| == 40 && Be16(h[4], h[5]) == length
    requires h[0] == 0x60 && h[1] == 0 && h[2] == 0 && h[3] == 0 && h[6] == 17 && h[7] == 64
    requires forall i :: 8 <= i < 24 ==> h[i] == info.dst[i - 8]
    requires forall i :: 24 <= i < 40 ==> h[i] == info.src[i - 24]
    ensures IsHead6(info, length, h)
  {
    assert h[8..24] == info.dst;
    assert h[24..40] == info.src;
  }

  /** Puts both addresses in their places. */
  method PutAddresses6(p: array<byte>, info: V6Header.V6Info)
    requires Query6(info) && p.Length >= 40
    modifies p
    ensures forall i :: 8 <= i < 24 ==> p[i] == info.dst[i - 8]
    ensures forall i :: 24 <= i < 40 ==> p[i] == info.src[i - 24]
    ensures forall i :: 0 <= i < p.Length && !(8 <= i < 40) ==> p[i] == old(p[i])
  {
    CopyAt(p, 8, info.dst);
    CopyAt(p, 24, info.src);
  }

  method WriteHead6(p: array<byte>, info: V6Header.V6Info, length: uint16)
    requires Query6(info) && p.Length >= 40 && forall i :: 0 <= i < p.Length ==> p[i] == 0
    modifies p
    ensures IsHead6(info, length, p[..40])
    ensures forall i :: 40 <= i < p.Length ==> p[i] == 0
  {
    p[0] := 0x60;
    PutAt(p, 4, length);
    p[6] := 17;
    p[7] := 64;
    PutAddresses6(p, info);
    ghost var h := p[..40];
    assert forall i :: 0 <= i < 40 ==> h[i] == p[i];
    HeadOctets(info, length, h);
  }

  method WriteUdp6(p: array<byte>, info: V6Header.V6Info, length: uint16, dnsResp: Bytes)
    requires p.Length == 48 + |dnsResp| && forall i :: 40 <= i < p.Length ==> p[i] == 0
    modifies p
    ensures forall i :: 0 <= i < 40 ==> p[i] == old(p[i])
    ensures IsUdp6(info, length, dnsResp, p[40..]) && p[46] == 0 && p[47] == 0
  {
    PutAt(p, 40, info.ports.dst);
    PutAt(p, 42, info.ports.src);
    PutAt(p, 44, length);
    CopyAt(p, 48, dnsResp);
    assert p[40..][8..] == dnsResp;
  }

  lemma {:induction false} FilledUdp6(info: V6Header.V6Info, length: uint16, dnsResp: Bytes, before: Bytes, u: Bytes)
    requires IsUdp6(info, length, dnsResp, before) && SameBut(before, u, 6)
    ensures IsUdp6(info, length, dnsResp, u)
  {
  }

  /** A finished datagram behind a pseudo-header. */
  ghost predicate Sent6(info: V6Header.V6Info, dnsResp: Bytes, length: uint16, pseudoHeader: Bytes, u: Bytes) {
    IsUdp6(info, length, dnsResp, u) && Be16(u[6], u[7]) != 0 && OnesSum(pseudoHeader + u) == ONES
  }

  /** Puts the checksum into a datagram behind `off` octets. */
  method FinishUdp6(p: array<byte>, off: nat, ghost info: V6Header.V6Info, length: uint16, dnsResp: Bytes,
                    pseudoHeader: Bytes)
    requires p.Length == off + 8 + |dnsResp| && |dnsResp| <= 0xffff && |pseudoHeader| == 40
    requires IsUdp6(info, length, dnsResp, p[off..]) && p[off + 6] == 0 && p[off + 7] == 0
    modifies p
    ensures forall i :: 0 <= i < off ==> p[i] == old(p[i])
    ensures Sent6(info, dnsResp, length, pseudoHeader, p[off..])
  {
    ghost var before := p[off..];
    SumUdp(p, off, pseudoHeader);
    FilledUdp6(info, length, dnsResp, before, p[off..]);
  }

  lemma {:induction false} Answered6(info: V6Header.V6Info, dnsResp: Bytes, length: uint16, h: Bytes, u: Bytes)
    requires Query6(info) && |u| < 0x1_0000_0000 && length == |u| % 0x1_0000 && IsHead6(info, length, h)
    requires Sent6(info, dnsResp, length, PseudoHeader6(h[8..40], |u|), u)
    ensures Answers6(info, dnsResp, h, u)
  {
  }

  /** Fills the buffer: first the header, then the datagram. */
  method FillAnswer6(p: array<byte>, info: V6Header.V6Info, length: uint16, dnsResp: Bytes)
    requires Query6(info) && |dnsResp| <= 0xffff && p.Length == 48 + |dnsResp|
    requires forall i :: 0 <= i < p.Length ==> p[i] == 0
    modifies p
    ensures IsHead6(info, length, p[..40])
    ensures Sent6(info, dnsResp, length, PseudoHeader6(p[..40][8..40], 8 + |dnsResp|), p[40..])
  {
    var off := 40;
    WriteHead6(p, info, length);
    ghost var h := p[..40];
    var addresses := p[8..40];
    assert addresses == h[8..40];
    WriteUdp6(p, info, length, dnsResp);
    FinishUdp6(p, off, info, length, dnsResp, PseudoHeader6(addresses, 8 + |dnsResp|));
    assert p[..40] == h;
  }

  method BuildDnsResponsePacket6(info: V6Header.V6Info, dnsResp: Bytes) returns (p: array<byte>)
    requires Query6(info) && |dnsResp| <= 0xffff
    ensures fresh(p) && p.Length == 48 + |dnsResp|
    ensures Answers6(info, dnsResp, p[..40], p[40..])
  {
    var udpLen := 8 + |dnsResp|;
    var length: uint16 := udpLen % 0x1_0000;
    p := new byte[40 + udpLen](_ => 0);
    FillAnswer6(p, info, length, dnsResp);
    Answered6(info, dnsResp, length, p[..40], p[40..]);
  }

  lemma {:induction false} LengthWords(n: uint32)
    ensures WordSum(Put32(n)) == n / 0x1_0000 + n % 0x1_0000
  {
    var s := Put32(n);
    FourOctets(s);
    assert Be16(Put16(n / 0x1_0000)[0], Put16(n / 0x1_0000)[1]) == n / 0x1_0000;
    assert Be16(Put16(n % 0x1_0000)[0], Put16(n % 0x1_0000)[1]) == n % 0x1_0000;
  }

  lemma {:induction false} Tail6(addresses: Bytes, length: uint32, u: Bytes)
    requires |addresses| == 32
    ensures WordSum(PseudoHeader6(addresses, length) + u)
         == WordSum(addresses) + 17 + length / 0x1_0000 + length % 0x1_0000 + WordSum(u)
  {
    var four, last := Put32(length), [0 as byte, 0, 0, 17];
    assert PseudoHeader6(addresses, length) == addresses + (four + last);
    TailSum(addresses, four + last, u);
    WordSumConcat(four, last);
    LengthWords(length);
    FourOctets(last);
  }

  /** The same with a length of 32 bits (section 8.1 of RFC 8200). */
  lemma {:induction false} ReceiverAccepts6(info: V6Header.V6Info, dnsResp: Bytes, h: Bytes, u: Bytes)
    requires Query6(info) && Answers6(info, dnsResp, h, u)
    ensures Folded(WordSum(h[8..40]) + 17 + |u| / 0x1_0000 + |u| % 0x1_0000 + WordSum(u)) == ONES
  {
    Tail6(h[8..40], |u|, u);
    OnesSumFolds(PseudoHeader6(h[8..40], |u|) + u);
  }

  /**
   * Parsing an answer to an IPv6 query gives the query's addresses and ports swapped and finds the datagram;
   * it does so exactly if the datagram's length fits its length field.
   */
  lemma {:induction false} Answer6ParsesBack(info: V6Header.V6Info, dnsResp: Bytes, h: Bytes, u: Bytes)
    requires |dnsResp| <= 0xffff && IsHead6(info, |u| % 0x1_0000, h) && IsUdp6(info, |u| % 0x1_0000, dnsResp, u)
    ensures V6Header.Parse(h + u)
         == if 8 + |dnsResp| > 0xffff then None
            else Some(V6Header.V6Info(V6Header.UDP, info.dst, info.src, V6Header.Ports(info.ports.dst, info.ports.src),
                                      40, 48 + |dnsResp|, None))
  {
    Truncated(|u|);
    if |u| <= 0xffff {
      FieldsParse(info, |u|, dnsResp, h, u);
    } else {
      FieldsParse(info, |u| - 0x1_0000, dnsResp, h, u);
    }
  }

  lemma {:induction false} Truncated(n: nat)
    requires n < 0x2_0000
    ensures n % 0x1_0000 == if n <= 0xffff then n else n - 0x1_0000
  {
  }

  lemma {:induction false} FieldsParse(info: V6Header.V6Info, length: uint16, dnsResp: Bytes, h: Bytes, u: Bytes)
    requires IsHead6(info, length, h) && IsUdp6(info, length, dnsResp, u) && length <= |u|
    ensures V6Header.Parse(h + u)
         == if length < 8 then None
            else Some(V6Header.V6Info(V6Header.UDP, info.dst, info.src, V6Header.Ports(info.ports.dst, info.ports.src),
                                      40, 40 + length, None))
  {
    ParsesDatagram(h, u, length);
  }

  /** A packet of a base header and a datagram of which it announces so many octets. */
  lemma {:induction false} ParsesDatagram(base: Bytes, u: Bytes, length: nat)
    requires |base| == 40 && base[0] / 16 == 6 && base[6] == V6Header.UDP && length <= |u|
    requires Be16(base[4], base[5]) == length
    ensures V6Header.Parse(base + u)
         == if length < 8 then None
            else Some(V6Header.V6Info(V6Header.UDP, base[8..24], base[24..40],
                                      V6Header.Ports(Be16(u[0], u[1]), Be16(u[2], u[3])), 40, 40 + length, None))
  {
    V6Header.ParsesBuilt(base, V6Header.End(V6Header.UDP, u[..length]), u[length..]);
    assert base + u == base + u[..length] + u[length..];
  }
}
