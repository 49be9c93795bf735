/**
 * One buffered TCP stream: what adding a payload does to it. The rules are functions
 * on values; the cache in `StreamCache` carries them out on its objects.
 */
module TcpStreams {
  import opened Wire
  import opened TcpSegments
  import opened SniParser
  import opened CommonProtocols

  datatype Stream = Stream(segments: Segments, baseSeq: uint32, bytes: int, lastSeen: int)

  /** A payload that arrived, with the sequence number of its first byte. */
  datatype Arrival = Arrival(seqNo: uint32, data: Bytes)

  // ----- reading a TCP segment

  /** The payload of a TCP segment, cut to the cache's limit; None when there is nothing to buffer. */
  function Decode(tcpSeg: Bytes): (r: Option<Arrival>)
    ensures r.Some? ==> 0 < |r.value.data| <= MAX_BYTES
  {
    if |tcpSeg| < 20 then None
    else
      var headerLen := (tcpSeg[12] / 16) as nat * 4;
      if headerLen < 20 || headerLen >= |tcpSeg| then None
      else
        var payload := tcpSeg[headerLen..];
        Some(Arrival(Be32(tcpSeg[4], tcpSeg[5], tcpSeg[6], tcpSeg[7]),
                     if |payload| > MAX_BYTES then payload[..MAX_BYTES] else payload))
  }

  /** A minimal TCP segment that carries `data` at `seqNo`. */
  function TcpSegment(ports: Bytes, seqNo: uint32, ack: Bytes, offsetOctet: byte, rest: Bytes, data: Bytes): Bytes
    requires |ports| == 4 && |ack| == 4
  {
    ports + Put32(seqNo) + ack + [offsetOctet] + rest + data
  }

  /** Decoding finds the sequence number and the payload of any well-formed segment, options or not. */
  lemma {:induction false} DecodeInverts(ports: Bytes, seqNo: uint32, ack: Bytes, offsetOctet: byte, rest: Bytes,
                                         data: Bytes)
    requires |ports| == 4 && |ack| == 4
    requires offsetOctet / 16 >= 5 && 13 + |rest| == (offsetOctet / 16) as nat * 4
    requires 0 < |data| <= MAX_BYTES
    ensures Decode(TcpSegment(ports, seqNo, ack, offsetOctet, rest, data)) == Some(Arrival(seqNo, data))
  {
  }

  /** Without a payload nothing is buffered, and of a longer one the first 4096 octets. */
  lemma {:induction false} DecodeCuts(ports: Bytes, seqNo: uint32, ack: Bytes, offsetOctet: byte, rest: Bytes,
                                      data: Bytes)
    requires |ports| == 4 && |ack| == 4
    requires offsetOctet / 16 >= 5 && 13 + |rest| == (offsetOctet / 16) as nat * 4
    ensures Decode(TcpSegment(ports, seqNo, ack, offsetOctet, rest, data))
         == if data == [] then None else Some(Arrival(seqNo, if |data| > 4096 then data[..4096] else data))
  {
    var tcpSeg, n := TcpSegment(ports, seqNo, ack, offsetOctet, rest, data), (offsetOctet / 16) as nat * 4;
    assert tcpSeg[12] == offsetOctet && tcpSeg[n..] == data;
    assert [tcpSeg[4], tcpSeg[5], tcpSeg[6], tcpSeg[7]] == Put32(seqNo);
  }

  /** A header shorter than the least, or longer than the segment, is not read. */
  lemma {:induction false} DecodeRejects(tcpSeg: Bytes)
    requires |tcpSeg| < 20 || tcpSeg[12] / 16 < 5 || (tcpSeg[12] / 16) as nat * 4 >= |tcpSeg|
    ensures Decode(tcpSeg) == None
  {
  }

  // ----- adding an arrival

  /** A number more than half the space above the base lies below it: the base moves there. */
  function Rebased(base: uint32, seqNo: uint32): uint32 {
    if RelativeSeq(seqNo, base) > HALF_SPACE then seqNo else base
  }

  /** A retransmission replaces what is held at its number only if it is longer. */
  function Stored(segs: Segments, a: Arrival): Segments {
    if a.seqNo in segs && |segs[a.seqNo]| >= |a.data| then segs else segs[a.seqNo := a.data]
  }

  /** Drops segments from the lowest one up until the rest fits. */
  ghost function Trimmed(segs: Segments, base: uint32): Segments
    decreases |segs|
  {
    if Size(segs) <= MAX_BYTES || segs == map[] then segs
    else Trimmed(segs - {Lowest(segs, base)}, base)
  }

  /** The stream with the arrival stored, before it is trimmed. */
  ghost function Untrimmed(prev: Option<Stream>, a: Arrival, now: int): Stream {
    var base := if prev.Some? then Rebased(prev.value.baseSeq, a.seqNo) else a.seqNo;
    var segs := Stored(if prev.Some? then prev.value.segments else map[], a);
    Stream(segs, base, Size(segs), now)
  }

  ghost function Received(prev: Option<Stream>, a: Arrival, now: int): Stream {
    var st := Untrimmed(prev, a, now);
    var kept := Trimmed(st.segments, st.baseSeq);
    st.(segments := kept, bytes := Size(kept))
  }

  // ----- the books of one stream

  /** What every buffered stream looks like between two arrivals. */
  ghost predicate Sound(st: Stream) {
    && st.segments != map[]
    && (forall q <- st.segments :: 0 < |st.segments[q]| <= MAX_BYTES)
    && st.bytes == Size(st.segments) <= MAX_BYTES
  }

  /** Trimming leaves something, within the limit, and what it drops lies below what it keeps. */
  lemma {:induction false} TrimmedKeepsHighest(segs: Segments, base: uint32)
    requires segs != map[] && forall q <- segs :: |segs[q]| <= MAX_BYTES
    ensures var kept := Trimmed(segs, base);
            && kept != map[] && kept.Keys <= segs.Keys && (forall q <- kept :: kept[q] == segs[q])
            && Size(kept) <= MAX_BYTES
            && (forall p, q :: p in segs && p !in kept && q in kept ==>
                  RelativeSeq(p, base) < RelativeSeq(q, base))
    decreases |segs|
  {
    if Size(segs) > MAX_BYTES {
      var low := Lowest(segs, base);
      var rest := segs - {low};
      SizeRemove(segs, low);
      assert rest == map[] ==> Sizes(rest) == map[];
      TrimmedKeepsHighest(rest, base);
      var kept := Trimmed(segs, base);
      assert kept == Trimmed(rest, base);
      forall p, q | p in segs && p !in kept && q in kept
        ensures RelativeSeq(p, base) < RelativeSeq(q, base)
      {
        assert q in rest && q != low;
        if p == low {
          if RelativeSeq(p, base) == RelativeSeq(q, base) {
            RelativeSeqInjective(p, q, base);
          }
        } else {
          assert p in rest;
        }
      }
    }
  }

  /** Whatever arrives, the stream it arrives at is sound afterwards: never empty, never too big. */
  lemma {:induction false} ReceivedIsSound(prev: Option<Stream>, a: Arrival, now: int)
    requires prev.Some? ==> Sound(prev.value)
    requires 0 < |a.data| <= MAX_BYTES
    ensures Sound(Received(prev, a, now))
  {
    var base := if prev.Some? then Rebased(prev.value.baseSeq, a.seqNo) else a.seqNo;
    var segs := Stored(if prev.Some? then prev.value.segments else map[], a);
    assert a.seqNo in segs;
    TrimmedKeepsHighest(segs, base);
  }

  // ----- slices of one stream, across sequence-number wrap-around

  /** The sequence number of byte `o` of a stream whose first byte has number `isn`. */
  function SeqOf(isn: uint32, o: nat): uint32 {
    (isn + o) % 0x1_0000_0000
  }

  /** The arrival is the slice of `s` at offset `o`. */
  ghost predicate ArrivesFrom(s: Bytes, isn: uint32, o: nat, a: Arrival) {
    a.seqNo == SeqOf(isn, o) && IsSlice(s, o, a.data)
  }

  /** `st` holds slices of `s` only, and its base is the number of offset `b`. */
  ghost predicate Follows(s: Bytes, isn: uint32, b: nat, st: Stream) {
    st.baseSeq == SeqOf(isn, b) && SlicesOf(s, b, st.segments, st.baseSeq)
  }

  lemma {:induction false} RelativeSeqOf(isn: uint32, b: nat, o: nat)
    ensures b <= o < b + 0x1_0000_0000 ==> RelativeSeq(SeqOf(isn, o), SeqOf(isn, b)) == o - b
    ensures o < b < o + 0x1_0000_0000 ==>
              RelativeSeq(SeqOf(isn, o), SeqOf(isn, b)) == 0x1_0000_0000 - (b - o)
  {
  }

  /** The lower of two offsets. */
  function Lower(b: nat, o: nat): nat {
    if o < b then o else b
  }

  /**
   * While all offsets seen stay within half the sequence space, adding a slice keeps the stream
   * made of slices, and the base is the number of the lowest offset ever seen.
   */
  lemma {:induction false} ReceivedFollows(s: Bytes, isn: uint32, b: nat, hi: nat, o: nat, prev: Stream, a: Arrival,
                                           now: int)
    requires Follows(s, isn, b, prev) && ArrivesFrom(s, isn, o, a)
    requires forall q <- prev.segments :: Offset(b, q, prev.baseSeq) <= hi
    requires b <= hi && o <= hi && hi - Lower(b, o) < HALF_SPACE
    ensures Follows(s, isn, Lower(b, o), Received(Some(prev), a, now))
    ensures var st := Received(Some(prev), a, now);
            forall q <- st.segments :: Offset(Lower(b, o), q, st.baseSeq) <= hi
  {
    var st, b' := Received(Some(prev), a, now), Lower(b, o);
    RelativeSeqOf(isn, b, o);
    RelativeSeqOf(isn, o, o);
    assert st.baseSeq == SeqOf(isn, b');
    var segs := Stored(prev.segments, a);
    forall q | q in segs
      ensures RelativeSeq(q, st.baseSeq) < HALF_SPACE && Offset(b', q, st.baseSeq) <= hi
      ensures IsSlice(s, Offset(b', q, st.baseSeq), segs[q])
    {
      if q in prev.segments {
        var x := Offset(b, q, prev.baseSeq);
        OffsetNumber(isn, b, q);
        RelativeSeqOf(isn, b', x);
      }
      if q == a.seqNo {
        RelativeSeqOf(isn, b', o);
      }
    }
    TrimmedIsPart(segs, st.baseSeq);
  }

  lemma {:induction false} OffsetNumber(isn: uint32, b: nat, q: uint32)
    ensures SeqOf(isn, Offset(b, q, SeqOf(isn, b))) == q
  {
  }

  lemma {:induction false} TrimmedIsPart(segs: Segments, base: uint32)
    ensures Trimmed(segs, base).Keys <= segs.Keys
    ensures forall q <- Trimmed(segs, base) :: Trimmed(segs, base)[q] == segs[q]
    decreases |segs|
  {
    if Size(segs) > MAX_BYTES && segs != map[] {
      TrimmedIsPart(segs - {Lowest(segs, base)}, base);
    }
  }

  // ----- the verdict on the bytes assembled so far

  /** A library HTTP reader: the request's host, when the bytes parse as a request. */
  type HttpReader = Bytes -> Option<Bytes>

  ghost function TcpVerdict(http: HttpReader, data: Bytes): Verdict {
    if Sni(data).proto != Tcp then Sni(data)
    else if http(data).Some? then Verdict(Http, http(data).value)
    else CommonProtocolParser(data)
  }

  /** The parsers' answers in order. Only what starts like TLS can be a ClientHello. */
  lemma {:induction false} VerdictInOrder(http: HttpReader, data: Bytes)
    requires data != []
    ensures Sni(data).proto != Tcp ==> data[0] == 0x16 && TcpVerdict(http, data) == Sni(data)
    ensures Sni(data).proto == Tcp && http(data).Some? ==> TcpVerdict(http, data) == Verdict(Http, http(data).value)
    ensures Sni(data).proto == Tcp && http(data).None? ==> TcpVerdict(http, data) == CommonProtocolParser(data)
  {
  }

  method OnTcpPayload(http: HttpReader, data: Bytes) returns (v: Verdict)
    ensures v == TcpVerdict(http, data)
  {
    v := SniNewParser(data);
    if v.proto != Tcp {
      return v;
    }
    var host := http(data);
    if host.Some? {
      return Verdict(Http, host.value);
    }
    v := CommonProtocolParser(data);
  }
}
