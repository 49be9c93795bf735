/** The cache of buffered TCP streams: expiry, eviction and two levels of byte accounting. */
module StreamCache {
  import opened Wire
  import opened MapSum
  import opened TcpSegments
  import opened SniParser
  import opened CommonProtocols
  import opened TcpStreams

  const MAX_TOTAL: nat := 1024 * 1024
  const MAX_COUNT: nat := 4096

  /** Ten seconds, in nanoseconds. */
  const IDLE_EXPIRY: nat := 10_000_000_000

  datatype StreamKey = StreamKey(username: string, groupName: string, protocol: byte,
                                 src: string, dst: string, srcPort: uint16, dstPort: uint16)

  function ReverseKey(key: StreamKey): StreamKey {
    key.(src := key.dst, dst := key.src, srcPort := key.dstPort, dstPort := key.srcPort)
  }

  // ----- the cache as a value

  type Streams = map<StreamKey, Stream>

  function StreamSizes(v: Streams): map<StreamKey, nat> {
    map k | k in v :: if v[k].bytes < 0 then 0 else v[k].bytes
  }

  ghost function Held(v: Streams): nat {
    Sum(StreamSizes(v))
  }

  lemma {:induction false} HeldRemove(v: Streams, k: StreamKey)
    requires k in v && v[k].bytes >= 0
    ensures Held(v) == v[k].bytes + Held(v - {k})
  {
    SumRemove(StreamSizes(v), k);
    assert StreamSizes(v) - {k} == StreamSizes(v - {k});
  }

  lemma {:induction false} HeldPut(v: Streams, k: StreamKey, st: Stream)
    requires st.bytes >= 0
    ensures Held(v[k := st]) == st.bytes + Held(v - {k})
  {
    SumPut(StreamSizes(v), k, st.bytes);
    assert StreamSizes(v[k := st]) == StreamSizes(v)[k := st.bytes];
    assert StreamSizes(v) - {k} == StreamSizes(v - {k});
  }

  lemma {:induction false} HeldReplace(v: Streams, k: StreamKey, st: Stream)
    requires st.bytes >= 0 && (k in v ==> v[k].bytes >= 0)
    ensures Held(v[k := st]) == Held(v) + st.bytes - (if k in v then v[k].bytes else 0)
  {
    HeldPut(v, k, st);
    if k in v {
      HeldRemove(v, k);
    } else {
      assert v - {k} == v;
    }
  }

  predicate Idle(st: Stream, now: int) {
    now - st.lastSeen >= IDLE_EXPIRY
  }

  function Unexpired(v: Streams, now: int): Streams {
    map k | k in v && !Idle(v[k], now) :: v[k]
  }

  /** The streams that are not idle or still have to be looked at. */
  function Remaining(v: Streams, todo: set<StreamKey>, now: int): Streams {
    map k | k in v && (k in todo || !Idle(v[k], now)) :: v[k]
  }

  lemma {:induction false} RemainingStep(v: Streams, todo: set<StreamKey>, key: StreamKey, now: int)
    requires key in v && key in todo
    ensures Remaining(v, todo - {key}, now)
         == if Idle(v[key], now) then Remaining(v, todo, now) - {key} else Remaining(v, todo, now)
  {
  }

  /** `r` was seen no later than any other stream, leaving `except` out of account. */
  ghost predicate IsOldest(v: Streams, r: StreamKey, except: set<StreamKey>) {
    r in v && r !in except && forall k <- v :: k !in except ==> v[r].lastSeen <= v[k].lastSeen
  }

  /** Room for one more stream: at the limit, one oldest stream goes. */
  ghost predicate MakesRoom(v: Streams, key: StreamKey, v': Streams) {
    if key in v || |v| < MAX_COUNT then v' == v
    else exists r :: IsOldest(v, r, {}) && v' == v - {r}
  }

  /** Oldest streams other than `key` go, one by one, as long as too many bytes are held. */
  ghost predicate EvictedTo(v: Streams, key: StreamKey, v': Streams)
    decreases |v|
  {
    if Held(v) <= MAX_TOTAL then v' == v
    else exists r :: IsOldest(v, r, {key}) && EvictedTo(v - {r}, key, v')
  }

  ghost function Previous(v: Streams, key: StreamKey): Option<Stream> {
    if key in v then Some(v[key]) else None
  }

  /** What one arrival does to the cache, before the verdict on the assembled bytes is known. */
  ghost predicate AddStep(v: Streams, key: StreamKey, a: Arrival, now: int, v': Streams) {
    exists room :: MakesRoom(Unexpired(v, now), key, room) &&
                   EvictedTo(room[key := Received(Previous(Unexpired(v, now), key), a, now)], key, v')
  }

  /** The state between two operations: sound streams, and neither limit exceeded. */
  ghost predicate Bounded(v: Streams) {
    |v| <= MAX_COUNT && Held(v) <= MAX_TOTAL && forall k <- v :: Sound(v[k])
  }

  // ----- the cache as a state machine

  datatype Event = Segment(key: StreamKey, tcpSeg: Bytes, at: int) | Cleanup(at: int) | Close(key: StreamKey)

  /** How assembled bytes are judged. */
  type Judge = Bytes -> Verdict

  ghost function JudgeOf(http: HttpReader): Judge {
    d => TcpVerdict(http, d)
  }

  /** What is answered to a segment: a recognised protocol, or plain TCP. */
  ghost function Answer(judge: Judge, v: Streams, key: StreamKey, tcpSeg: Bytes, now: int): (Verdict, bool) {
    if Decode(tcpSeg).None? then (PLAIN_TCP, false)
    else
      var st := Received(Previous(Unexpired(v, now), key), Decode(tcpSeg).value, now);
      var found := judge(Assembled(st.segments, st.baseSeq));
      if found.proto != Tcp then (found, true) else (PLAIN_TCP, false)
  }

  /** One event; a stream whose bytes are recognised is released. */
  ghost predicate Step(judge: Judge, v: Streams, e: Event, v': Streams) {
    match e
    case Segment(key, tcpSeg, now) =>
      if Decode(tcpSeg).None? then v' == v
      else
        exists kept :: AddStep(v, key, Decode(tcpSeg).value, now, kept) &&
                       v' == if Answer(judge, v, key, tcpSeg, now).1 then kept - {key} else kept
    case Cleanup(now) => v' == Unexpired(v, now)
    case Close(key) => v' == v - {key, ReverseKey(key)}
  }

  // ----- how a payload is answered

  /** The bytes assembled from the stream once the segment has arrived. */
  ghost function AssembledWith(v: Streams, key: StreamKey, tcpSeg: Bytes, now: int): Bytes
    requires Decode(tcpSeg).Some?
  {
    var st := Received(Previous(Unexpired(v, now), key), Decode(tcpSeg).value, now);
    Assembled(st.segments, st.baseSeq)
  }

  /**
   * What is assembled decides the answer: a ClientHello's own verdict; HTTP with its host if the bytes do not start
   * like TLS and the HTTP reader takes them; and otherwise what the text parser says. The stream is there
   * afterwards exactly if that is plain TCP.
   */
  lemma {:induction false} PayloadIsAnswered(http: HttpReader, v: Streams, key: StreamKey, tcpSeg: Bytes, now: int,
                                             v': Streams)
    requires Bounded(v) && Decode(tcpSeg).Some? && Step(JudgeOf(http), v, Event.Segment(key, tcpSeg, now), v')
    ensures var data, (answer, found) := AssembledWith(v, key, tcpSeg, now), Answer(JudgeOf(http), v, key, tcpSeg, now);
            && data != []
            && (Sni(data).proto != Tcp ==> answer == Sni(data) && found)
            && (data[0] != 0x16 && http(data).Some? ==> answer == Verdict(Http, http(data).value) && found)
            && (data[0] != 0x16 && http(data).None? ==>
                  answer == CommonProtocolParser(data) && (found <==> CommonProtocolParser(data) != PLAIN_TCP))
            && (key in v' <==> !found)
  {
    var u, a := Unexpired(v, now), Decode(tcpSeg).value;
    var st := Received(Previous(u, key), a, now);
    var kept :| AddStep(v, key, a, now, kept) &&
                v' == if Answer(JudgeOf(http), v, key, tcpSeg, now).1 then kept - {key} else kept;
    UnexpiredIsBounded(v, now);
    ReceivedIsSound(Previous(u, key), a, now);
    StepKeepsLimits(v, key, a, now, kept);
    AssembledNonempty(st.segments, st.baseSeq);
    OnlyPlainIsTcp(Assembled(st.segments, st.baseSeq));
    VerdictInOrder(http, Assembled(st.segments, st.baseSeq));
    AnswerIsVerdict(http, v, key, tcpSeg, now);
  }

  lemma {:induction false} AnswerIsVerdict(http: HttpReader, v: Streams, key: StreamKey, tcpSeg: Bytes, now: int)
    requires Decode(tcpSeg).Some?
    ensures var found := TcpVerdict(http, AssembledWith(v, key, tcpSeg, now));
            Answer(JudgeOf(http), v, key, tcpSeg, now) ==
            if found.proto != Tcp then (found, true) else (PLAIN_TCP, false)
  {
  }

  lemma {:induction false} OnlyPlainIsTcp(data: Bytes)
    ensures CommonProtocolParser(data).proto == Tcp ==> CommonProtocolParser(data) == PLAIN_TCP
  {
  }

  // ----- consequences of a step

  lemma {:induction false} EvictionContinues(v: Streams, r: StreamKey, key: StreamKey)
    requires Held(v) > MAX_TOTAL && IsOldest(v, r, {key})
    ensures forall w :: EvictedTo(v - {r}, key, w) ==> EvictedTo(v, key, w)
  {
  }

  /** `w` holds some of the streams of `v`, unchanged. */
  ghost predicate IsPart(w: Streams, v: Streams) {
    w.Keys <= v.Keys && forall k <- w :: w[k] == v[k]
  }

  /** No stream of `v` that is gone in `w` was seen later than one that stayed; `key` is left out of account. */
  ghost predicate IsLru(v: Streams, w: Streams, key: StreamKey) {
    forall r, k :: r in v && r !in w && k in w && k in v && k != key ==> v[r].lastSeen <= v[k].lastSeen
  }

  lemma {:induction false} EvictionIsLru(v: Streams, key: StreamKey, v': Streams)
    requires key in v && EvictedTo(v, key, v')
    ensures key in v' && IsPart(v', v) && IsLru(v, v', key) && Held(v') <= MAX_TOTAL
    decreases |v|
  {
    if Held(v) > MAX_TOTAL {
      var r :| IsOldest(v, r, {key}) && EvictedTo(v - {r}, key, v');
      EvictionIsLru(v - {r}, key, v');
      LruAddsOldest(v, r, key, v');
    }
  }

  lemma {:induction false} LruAddsOldest(v: Streams, r: StreamKey, key: StreamKey, w: Streams)
    requires IsOldest(v, r, {key}) && IsPart(w, v - {r}) && IsLru(v - {r}, w, key)
    ensures IsPart(w, v) && IsLru(v, w, key)
  {
  }

  lemma {:induction false} SoundStreamFits(u: Streams, key: StreamKey, st: Stream, room: Streams, v': Streams)
    requires Bounded(u) && Sound(st)
    requires MakesRoom(u, key, room) && EvictedTo(room[key := st], key, v')
    ensures Bounded(v') && key in v' && v'[key] == st
  {
    EvictionIsLru(room[key := st], key, v');
    RoomIsEnough(u, key, room, st);
    KeysFewer(v', room[key := st]);
    RoomIsPart(u, key, room);
    forall k | k in v'
      ensures Sound(v'[k])
    {
      assert k != key ==> k in room && v'[k] == room[k] == u[k];
    }
  }

  /** After any arrival the limits hold and the current stream is as `Received` says. */
  lemma {:induction false} StepKeepsLimits(v: Streams, key: StreamKey, a: Arrival, now: int, v': Streams)
    requires Bounded(v) && 0 < |a.data| <= MAX_BYTES && AddStep(v, key, a, now, v')
    ensures Bounded(v')
    ensures key in v' && v'[key] == Received(Previous(Unexpired(v, now), key), a, now)
  {
    var u := Unexpired(v, now);
    var st := Received(Previous(u, key), a, now);
    var room :| MakesRoom(u, key, room) && EvictedTo(room[key := st], key, v');
    UnexpiredIsBounded(v, now);
    ReceivedIsSound(Previous(u, key), a, now);
    SoundStreamFits(u, key, st, room, v');
  }

  lemma {:induction false} RoomIsPart(u: Streams, key: StreamKey, room: Streams)
    requires MakesRoom(u, key, room)
    ensures IsPart(room, u) && IsLru(u, room, key)
  {
  }

  /**
   * No stream but the current one changes, and streams that went were either idle or seen
   * no later than any that stayed.
   */
  lemma {:induction false} StepEvictsOldest(v: Streams, key: StreamKey, a: Arrival, now: int, v': Streams)
    requires AddStep(v, key, a, now, v')
    ensures IsPart(v' - {key}, Unexpired(v, now))
    ensures IsLru(Unexpired(v, now), v', key)
  {
    var u := Unexpired(v, now);
    var st := Received(Previous(u, key), a, now);
    var room :| MakesRoom(u, key, room) && EvictedTo(room[key := st], key, v');
    var w := room[key := st];
    EvictionIsLru(w, key, v');
    RoomIsPart(u, key, room);
    forall k | k in v' && k != key
      ensures k in room && room[k] == u[k] == v'[k] == w[k]
    {
      assert k in w;
    }
    forall r, k | r in u && r !in v' && k in v' && k in u && k != key
      ensures u[r].lastSeen <= u[k].lastSeen
    {
      if r in room {
        assert r != key && r in w && w[r] == u[r];
      }
    }
  }

  lemma {:induction false} KeysFewer(v: Streams, w: Streams)
    requires v.Keys <= w.Keys
    ensures |v| <= |w|
  {
    SetFewer(v.Keys, w.Keys);
  }

  lemma {:induction false} SetFewer<T>(a: set<T>, b: set<T>)
    requires a <= b
    ensures |a| <= |b|
  {
    if a != {} {
      var x :| x in a;
      SetFewer(a - {x}, b - {x});
    }
  }

  lemma {:induction false} PartIsBounded(w: Streams, v: Streams)
    requires IsPart(w, v) && Bounded(v)
    ensures Bounded(w)
  {
    KeysFewer(w, v);
    SumPart(StreamSizes(w), StreamSizes(v));
  }

  lemma {:induction false} UnexpiredIsBounded(v: Streams, now: int)
    requires Bounded(v)
    ensures Bounded(Unexpired(v, now))
  {
    PartIsBounded(Unexpired(v, now), v);
  }

  lemma {:induction false} UntrimmedFits(prev: Option<Stream>, a: Arrival, now: int)
    requires prev.Some? ==> Sound(prev.value)
    requires 0 < |a.data| <= MAX_BYTES
    ensures var segs := Untrimmed(prev, a, now).segments;
            segs != map[] && forall q <- segs :: 0 < |segs[q]| <= MAX_BYTES
  {
  }

  lemma {:induction false} RoomIsEnough(u: Streams, key: StreamKey, room: Streams, st: Stream)
    requires |u| <= MAX_COUNT && MakesRoom(u, key, room)
    ensures |room[key := st]| <= MAX_COUNT
  {
  }

  /** When everything fits, an arrival touches no other stream but the idle ones. */
  lemma {:induction false} StepWithRoom(v: Streams, key: StreamKey, a: Arrival, now: int, v': Streams)
    requires AddStep(v, key, a, now, v')
    requires var u := Unexpired(v, now);
             && (key in u || |u| < MAX_COUNT)
             && Held(u[key := Received(Previous(u, key), a, now)]) <= MAX_TOTAL
    ensures var u := Unexpired(v, now);
            v' == u[key := Received(Previous(u, key), a, now)]
  {
  }

  // ----- which other stream survives an arrival

  /** The streams seen no earlier than `k`. */
  function Younger(u: Streams, k: StreamKey): Streams
    requires k in u
  {
    map j | j in u && u[j].lastSeen >= u[k].lastSeen :: u[j]
  }

  /** These and the arrival's stream fit both limits of the cache. */
  ghost predicate Secure(u: Streams, k: StreamKey, key: StreamKey, st: Stream)
    requires k in u
  {
    |Younger(u, k).Keys + {key}| <= MAX_COUNT && Held(Younger(u, k)[key := st]) <= MAX_TOTAL
  }

  lemma {:induction false} EvictionSpares(x: Streams, key: StreamKey, k: StreamKey, y: Streams, v': Streams)
    requires k in x && key in x && k != key && Held(y) <= MAX_TOTAL && EvictedTo(x, key, v')
    requires forall j <- x :: j == key || x[j].lastSeen >= x[k].lastSeen ==> j in y && y[j] == x[j]
    ensures k in v'
    decreases |x|
  {
    if Held(x) > MAX_TOTAL {
      var r :| IsOldest(x, r, {key}) && EvictedTo(x - {r}, key, v');
      if r == k {
        SumPart(StreamSizes(x), StreamSizes(y));
        assert false;
      }
      EvictionSpares(x - {r}, key, k, y, v');
    }
  }

  /** In a full cache, all streams are seen no earlier than the oldest. */
  lemma {:induction false} FullAndOldest(u: Streams, k: StreamKey, key: StreamKey)
    requires IsOldest(u, k, {}) && key !in u && |u| >= MAX_COUNT
    ensures |Younger(u, k).Keys + {key}| > MAX_COUNT
  {
    assert Younger(u, k) == u;
    assert |u.Keys + {key}| == |u.Keys| + 1;
  }

  lemma {:induction false} RoomSpares(u: Streams, k: StreamKey, key: StreamKey, room: Streams)
    requires k in u && k != key && MakesRoom(u, key, room) && |Younger(u, k).Keys + {key}| <= MAX_COUNT
    ensures k in room
  {
    if !(key in u || |u| < MAX_COUNT) {
      var r :| IsOldest(u, r, {}) && room == u - {r};
      if r == k {
        FullAndOldest(u, k, key);
      }
    }
  }

  lemma {:induction false} SecureSurvives(u: Streams, k: StreamKey, key: StreamKey, st: Stream, room: Streams,
                                          v': Streams)
    requires k in u && k != key && Secure(u, k, key, st)
    requires MakesRoom(u, key, room) && EvictedTo(room[key := st], key, v')
    ensures k in v'
  {
    RoomSpares(u, k, key, room);
    RoomIsPart(u, key, room);
    EvictionSpares(room[key := st], key, k, Younger(u, k)[key := st], v');
  }

  /** Where `k` stayed, so did whatever was seen later. */
  lemma {:induction false} LaterStays(u: Streams, w: Streams, k: StreamKey, key: StreamKey, j: StreamKey)
    requires IsPart(w - {key}, u) && IsLru(u, w, key) && k in u && k in w && k != key
    requires j in u && j != key && (j == k || u[j].lastSeen > u[k].lastSeen)
    ensures j in w && w[j] == u[j]
  {
    assert j in w ==> j in w - {key};
  }

  lemma {:induction false} StaysThroughout(u: Streams, room: Streams, v': Streams, k: StreamKey, key: StreamKey,
                                           st: Stream, j: StreamKey)
    requires IsPart(room, u) && IsLru(u, room, key) && IsPart(v', room[key := st]) && IsLru(room[key := st], v', key)
    requires k in u && k in room && k in v' && k != key
    requires j in u && j != key && (j == k || u[j].lastSeen > u[k].lastSeen)
    ensures j in v' && v'[j] == u[j]
  {
    LaterStays(u, room, k, key, j);
    LaterStays(room[key := st], v', k, key, j);
  }

  lemma {:induction false} StayedIn(v': Streams, room: Streams, key: StreamKey, st: Stream, k: StreamKey)
    requires IsPart(v', room[key := st]) && k in v' && k != key
    ensures k in room
  {
  }

  lemma {:induction false} YoungerStay(u: Streams, k: StreamKey, key: StreamKey, st: Stream, room: Streams, v': Streams)
    requires IsPart(room, u) && IsLru(u, room, key) && IsPart(v', room[key := st]) && IsLru(room[key := st], v', key)
    requires k in u && k in v' && k != key && key in v' && forall j <- u :: j != k ==> u[j].lastSeen != u[k].lastSeen
    ensures IsPart(Younger(u, k)[key := st], v')
  {
    StayedIn(v', room, key, st, k);
    forall j | j in u && j != key && u[j].lastSeen >= u[k].lastSeen
      ensures j in v' && v'[j] == u[j]
    {
      StaysThroughout(u, room, v', k, key, st, j);
    }
  }

  lemma {:induction false} SurvivorIsSecure(u: Streams, k: StreamKey, key: StreamKey, st: Stream, room: Streams,
                                            v': Streams)
    requires k in u && k != key && |u| <= MAX_COUNT && forall j <- u :: j != k ==> u[j].lastSeen != u[k].lastSeen
    requires MakesRoom(u, key, room) && EvictedTo(room[key := st], key, v') && k in v'
    ensures Secure(u, k, key, st)
  {
    RoomIsPart(u, key, room);
    EvictionIsLru(room[key := st], key, v');
    YoungerStay(u, k, key, st, room, v');
    SumPart(StreamSizes(Younger(u, k)[key := st]), StreamSizes(v'));
    SetFewer(Younger(u, k).Keys + {key}, room[key := st].Keys);
    RoomIsEnough(u, key, room, st);
  }

  /**
   * Another stream that is not idle survives an arrival if the streams seen no earlier than it and the arrival's
   * own fit; and only then, if no other was seen at the same time.
   */
  lemma {:induction false} SurvivesIff(v: Streams, k: StreamKey, key: StreamKey, a: Arrival, now: int, v': Streams)
    requires AddStep(v, key, a, now, v') && k != key && k in Unexpired(v, now)
    ensures var u := Unexpired(v, now);
            var secure := Secure(u, k, key, Received(Previous(u, key), a, now));
            && (secure ==> k in v')
            && ((forall j <- u :: j != k ==> u[j].lastSeen != u[k].lastSeen) && |v| <= MAX_COUNT && k in v' ==> secure)
  {
    var u := Unexpired(v, now);
    var st := Received(Previous(u, key), a, now);
    var room :| MakesRoom(u, key, room) && EvictedTo(room[key := st], key, v');
    if Secure(u, k, key, st) {
      SecureSurvives(u, k, key, st, room, v');
    }
    if (forall j <- u :: j != k ==> u[j].lastSeen != u[k].lastSeen) && |v| <= MAX_COUNT && k in v' {
      KeysFewer(u, v);
      SurvivorIsSecure(u, k, key, st, room, v');
    }
  }

  lemma {:induction false} PutTwice(v: Streams, key: StreamKey, st: Stream, st': Stream)
    ensures v[key := st][key := st'] == v[key := st']
  {
  }

  /** A single stream within its own limit is within the limit of the cache. */
  lemma {:induction false} OneStreamFits(v: Streams, key: StreamKey)
    requires key in v && 0 <= v[key].bytes <= MAX_BYTES && Held(v) > MAX_TOTAL
    ensures |v| > 1 && !(v.Keys <= {key})
  {
    HeldRemove(v, key);
    assert v.Keys <= {key} ==> StreamSizes(v - {key}) == map[];
    var k :| k in v && k != key;
    SetFewer({key, k}, v.Keys);
    assert |{key, k}| == 2;
  }

  /** What goes with a closed connection, and what stays. */
  lemma {:induction false} ClosedIs(v: Streams, key: StreamKey)
    ensures var back := StreamKey(key.username, key.groupName, key.protocol, key.dst, key.src,
                                   key.dstPort, key.srcPort);
            var v' := v - {key, ReverseKey(key)};
            && (forall k :: k in v' <==> k in v && k != key && k != back)
            && forall k <- v' :: v'[k] == v[k]
  {
  }

  lemma {:induction false} RemoveBoth(v: Streams, j: StreamKey, k: StreamKey)
    ensures v - {j} - {k} == v - {j, k}
  {
  }

  /** A stream with one more payload stored, and by how much it grew. */
  method Absorb(prev: Option<Stream>, a: Arrival, now: int) returns (stream: Stream, grown: nat)
    requires prev.Some? ==> prev.value.bytes == Size(prev.value.segments)
    ensures stream == Untrimmed(prev, a, now)
    ensures stream.bytes == grown + if prev.Some? then prev.value.bytes else 0
  {
    stream := if prev.Some? then prev.value.(lastSeen := now) else Stream(map[], a.seqNo, 0, now);
    assert Sizes(map[]) == map[];
    if RelativeSeq(a.seqNo, stream.baseSeq) > HALF_SPACE {
      stream := stream.(baseSeq := a.seqNo);
    }
    grown := 0;
    SizePut(stream.segments, a.seqNo, a.data);
    if a.seqNo in stream.segments {
      var held := stream.segments[a.seqNo];
      if |held| < |a.data| {
        grown := |a.data| - |held|;
        stream := stream.(segments := stream.segments[a.seqNo := a.data], bytes := stream.bytes + grown);
      }
    } else {
      grown := |a.data|;
      stream := stream.(segments := stream.segments[a.seqNo := a.data], bytes := stream.bytes + grown);
    }
  }

  // ----- the cache as an object

  class TcpStreamCache {
    const http: HttpReader
    var streams: Streams
    var total: int

    /** The books balance: every byte count is the sum of what it counts. */
    ghost predicate Balanced()
      reads this
    {
      (forall k <- streams :: streams[k].bytes == Size(streams[k].segments)) && total == Held(streams)
    }

    ghost predicate Valid()
      reads this
    {
      Balanced() && Bounded(streams)
    }

    constructor (http: HttpReader)
      ensures Valid() && streams == map[] && this.http == http
    {
      this.http := http;
      streams := map[];
      total := 0;
    }

    method RemoveLocked(key: StreamKey)
      requires Balanced()
      modifies this
      ensures Balanced() && streams == old(streams) - {key}
    {
      if key in streams {
        HeldRemove(streams, key);
        total := total - streams[key].bytes;
        streams := streams - {key};
      }
    }

    method ExpireLocked(now: int)
      requires Balanced()
      modifies this
      ensures Balanced() && streams == Unexpired(old(streams), now)
      ensures forall k :: k in streams <==> k in old(streams) && now - old(streams)[k].lastSeen < 10_000_000_000
      ensures forall k <- streams :: streams[k] == old(streams)[k]
    {
      var todo := streams.Keys;
      while todo != {}
        invariant Balanced() && todo <= streams.Keys
        invariant streams == Remaining(old(streams), todo, now)
      {
        var key :| key in todo;
        RemainingStep(old(streams), todo, key, now);
        if now - streams[key].lastSeen >= IDLE_EXPIRY {
          RemoveLocked(key);
        }
        todo := todo - {key};
      }
    }

    /** The scan for the stream that was seen longest ago. */
    method FindOldest(except: set<StreamKey>) returns (oldKey: StreamKey, found: bool)
      ensures found <==> !(streams.Keys <= except)
      ensures found ==> IsOldest(streams, oldKey, except)
    {
      found := false;
      oldKey := StreamKey("", "", 0, "", "", 0, 0);
      var todo := streams.Keys;
      while todo != {}
        invariant todo <= streams.Keys
        invariant found <==> !(streams.Keys - todo <= except)
        invariant found ==> oldKey in streams && oldKey !in except
        invariant found ==> forall k <- streams :: k !in todo && k !in except ==>
                              streams[oldKey].lastSeen <= streams[k].lastSeen
      {
        var candidate :| candidate in todo;
        if candidate !in except {
          if !found || streams[candidate].lastSeen < streams[oldKey].lastSeen {
            oldKey, found := candidate, true;
          }
        }
        todo := todo - {candidate};
      }
    }

    /** Called when a new stream finds the cache full. */
    method EvictOldestLocked()
      requires Balanced()
      modifies this
      ensures Balanced()
      ensures if old(streams) == map[] then streams == map[]
              else exists r :: IsOldest(old(streams), r, {}) && streams == old(streams) - {r}
    {
      var oldKey, found := FindOldest({});
      if found {
        RemoveLocked(oldKey);
      }
    }

    /** Drops the lowest segments of the current stream until it fits, then oldest streams until the cache fits. */
    method TrimLocked(key: StreamKey)
      requires Balanced() && key in streams
      requires forall q <- streams[key].segments :: 0 < |streams[key].segments[q]| <= MAX_BYTES
      requires streams[key].segments != map[]
      modifies this
      ensures Balanced()
      ensures var st := old(streams[key]);
              var kept := Trimmed(st.segments, st.baseSeq);
              EvictedTo(old(streams)[key := st.(segments := kept, bytes := Size(kept))], key, streams)
    {
      TrimStream(key);
      TrimmedKeepsHighest(old(streams[key]).segments, streams[key].baseSeq);
      EvictForTotal(key);
    }

    method TrimStream(key: StreamKey)
      requires Balanced() && key in streams
      modifies this
      ensures Balanced()
      ensures var st := old(streams[key]);
              var kept := Trimmed(st.segments, st.baseSeq);
              streams == old(streams)[key := st.(segments := kept, bytes := Size(kept))]
    {
      var stream := streams[key];
      while stream.bytes > MAX_BYTES
        invariant stream.bytes == Size(stream.segments) && total - stream.bytes == old(total) - old(streams)[key].bytes
        invariant stream == old(streams)[key].(segments := stream.segments, bytes := stream.bytes)
        invariant Trimmed(stream.segments, stream.baseSeq) == Trimmed(old(streams)[key].segments, stream.baseSeq)
        invariant streams == old(streams)
        decreases |stream.segments|
      {
        if stream.segments == map[] {
          break;
        }
        var oldest := FindLowest(stream.segments, stream.baseSeq);
        var n := |stream.segments[oldest]|;
        SizeRemove(stream.segments, oldest);
        stream := stream.(bytes := stream.bytes - n, segments := stream.segments - {oldest});
        total := total - n;
      }
      HeldReplace(streams, key, stream);
      streams := streams[key := stream];
    }

    /** Evicts oldest streams until the cache fits; the stream at `key` stays. */
    method EvictForTotal(key: StreamKey)
      requires Balanced() && key in streams && streams[key].bytes <= MAX_BYTES
      modifies this
      ensures Balanced() && EvictedTo(old(streams), key, streams)
    {
      while total > MAX_TOTAL
        invariant Balanced() && key in streams && streams[key] == old(streams)[key]
        invariant forall w :: EvictedTo(streams, key, w) ==> EvictedTo(old(streams), key, w)
        decreases |streams|
      {
        OneStreamFits(streams, key);
        var oldKey, found := FindOldest(if |streams| > 1 then {key} else {});
        if !found {
          break;
        }
        EvictionContinues(streams, oldKey, key);
        RemoveLocked(oldKey);
      }
    }

    /** Opens a stream if need be, moves its base, and stores the payload. */
    method Buffer(key: StreamKey, a: Arrival, now: int)
      requires Balanced()
      modifies this
      ensures Balanced()
      ensures streams == old(streams)[key := Untrimmed(Previous(old(streams), key), a, now)]
    {
      var stream, grown := Absorb(if key in streams then Some(streams[key]) else None, a, now);
      HeldReplace(streams, key, stream);
      total := total + grown;
      streams := streams[key := stream];
    }

    /** Makes the arrival part of its stream; idle and superfluous streams go. */
    method Admit(key: StreamKey, a: Arrival, now: int)
      requires Valid() && 0 < |a.data| <= MAX_BYTES
      modifies this
      ensures Balanced() && AddStep(old(streams), key, a, now, streams)
    {
      ExpireLocked(now);
      ghost var u := streams;
      UnexpiredIsBounded(old(streams), now);
      if key !in streams {
        if |streams| >= MAX_COUNT {
          EvictOldestLocked();
        }
      }
      ghost var room := streams;
      assert MakesRoom(u, key, room);
      Buffer(key, a, now);
      UntrimmedFits(Previous(u, key), a, now);
      TrimLocked(key);
      PutTwice(room, key, Untrimmed(Previous(u, key), a, now), Received(Previous(u, key), a, now));
    }

    /**
     * Buffers the payload of one TCP segment. `kept` is the cache before the verdict; a stream whose
     * bytes are recognised is released at once. `ok` tells whether a protocol was recognised.
     */
    method Add(key: StreamKey, tcpSeg: Bytes, now: int) returns (v: Verdict, ok: bool, ghost kept: Streams)
      requires Valid()
      modifies this
      ensures Valid()
      ensures (v, ok) == Answer(JudgeOf(http), old(streams), key, tcpSeg, now)
      ensures Step(JudgeOf(http), old(streams), Event.Segment(key, tcpSeg, now), streams)
      ensures Decode(tcpSeg).None? ==> v == PLAIN_TCP && !ok && streams == old(streams)
      ensures Decode(tcpSeg).Some? ==>
                && AddStep(old(streams), key, Decode(tcpSeg).value, now, kept)
                && key in kept
                && (var found := TcpVerdict(http, Assembled(kept[key].segments, kept[key].baseSeq));
                    && ok == (found.proto != Tcp)
                    && v == (if ok then found else PLAIN_TCP)
                    && streams == (if ok then kept - {key} else kept))
    {
      var arrival := Decode(tcpSeg);
      if arrival.None? {
        return PLAIN_TCP, false, streams;
      }
      Admit(key, arrival.value, now);
      kept := streams;
      StepKeepsLimits(old(streams), key, arrival.value, now, kept);
      v, ok := Recognise(key);
    }

    /** The verdict on the assembled bytes of one stream, which is released once it is recognised. */
    method Recognise(key: StreamKey) returns (v: Verdict, ok: bool)
      requires Valid() && key in streams
      modifies this
      ensures Valid()
      ensures var st := old(streams[key]);
              var found := TcpVerdict(http, Assembled(st.segments, st.baseSeq));
              && ok == (found.proto != Tcp)
              && v == (if ok then found else PLAIN_TCP)
              && streams == (if ok then old(streams) - {key} else old(streams))
    {
      var assembled := AssembleTcpStream(streams[key].segments, streams[key].baseSeq);
      AssembledNonempty(streams[key].segments, streams[key].baseSeq);
      if |assembled| == 0 {
        return PLAIN_TCP, false;
      }
      v := OnTcpPayload(http, assembled);
      if v.proto != Tcp {
        RemoveLocked(key);
        PartIsBounded(streams, old(streams));
        return v, true;
      }
      return PLAIN_TCP, false;
    }

    method Cleanup(now: int)
      requires Valid()
      modifies this
      ensures Valid() && Step(JudgeOf(http), old(streams), Event.Cleanup(now), streams)
      ensures forall k :: k in streams <==> k in old(streams) && now - old(streams)[k].lastSeen < 10_000_000_000
      ensures forall k <- streams :: streams[k] == old(streams)[k]
    {
      ExpireLocked(now);
      UnexpiredIsBounded(old(streams), now);
    }

    /** The connection ended: both of its directions go. */
    method Close(key: StreamKey)
      requires Valid()
      modifies this
      ensures Valid() && Step(JudgeOf(http), old(streams), Event.Close(key), streams)
      ensures var back := StreamKey(key.username, key.groupName, key.protocol, key.dst, key.src,
                                     key.dstPort, key.srcPort);
              && (forall k :: k in streams <==> k in old(streams) && k != key && k != back)
              && forall k <- streams :: streams[k] == old(streams)[k]
    {
      RemoveLocked(key);
      RemoveLocked(ReverseKey(key));
      RemoveBoth(old(streams), key, ReverseKey(key));
      ClosedIs(old(streams), key);
      PartIsBounded(streams, old(streams));
    }
  }
}
