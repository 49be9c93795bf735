/**
 * One connection in the whole cache: arrivals on any connection, cleanups and closings, in any order. As long as
 * the connection's stream is neither idle too long, evicted nor closed, the cache answers each of its segments as
 * the stream alone would be judged, and it forgets the stream once that is recognised.
 */
module CacheRuns {
  import opened Wire
  import opened TcpSegments
  import opened SniParser
  import opened TcpStreams
  import opened StreamCache
  import opened HelloRun

  /** A segment of the connection that carries a payload. */
  predicate ArrivesAt(k: StreamKey, e: Event) {
    e.Segment? && e.key == k && Decode(e.tcpSeg).Some?
  }

  /** An event at which idle streams go. */
  predicate Expires(e: Event) {
    e.Cleanup? || (e.Segment? && Decode(e.tcpSeg).Some?)
  }

  /** The connection's payloads are these pieces of `s`, in this order. */
  ghost predicate Sends(k: StreamKey, s: Bytes, isn: uint32, es: seq<Event>, ps: seq<Piece>)
    decreases |es|
  {
    PiecesOf(s, ps) &&
    if es == [] then ps == []
    else
      var m, e := |es| - 1, es[|es| - 1];
      if ArrivesAt(k, e) then
        && ps != []
        && var n := |ps| - 1;
           ps[n] in ps && Decode(e.tcpSeg).value == ArrivalOf(s, isn, ps[n]) && ps[n].at == e.at
           && Sends(k, s, isn, es[..m], ps[..n])
      else Sends(k, s, isn, es[..m], ps)
  }

  /** When the connection last sent a payload. */
  function LastAt(k: StreamKey, es: seq<Event>): Option<int> {
    if es == [] then None
    else if ArrivesAt(k, es[|es| - 1]) then Some(es[|es| - 1].at)
    else LastAt(k, es[..|es| - 1])
  }

  /** Nothing that expires streams happens ten seconds or more after the connection's latest payload. */
  predicate Timely(k: StreamKey, es: seq<Event>) {
    es == [] ||
    (var m, e := |es| - 1, es[|es| - 1];
     && (LastAt(k, es[..m]).Some? && Expires(e) ==> e.at - LastAt(k, es[..m]).value < IDLE_EXPIRY)
     && Timely(k, es[..m]))
  }

  /** Another connection's payload leaves room for what was seen since, and the connection is not closed. */
  ghost predicate Spares(k: StreamKey, v: Streams, e: Event) {
    match e
    case Segment(key, tcpSeg, now) =>
      key == k || Decode(tcpSeg).None? ||
      (var u := Unexpired(v, now);
       k in u ==> Secure(u, k, key, Received(Previous(u, key), Decode(tcpSeg).value, now)))
    case Cleanup(_) => true
    case Close(key) => key != k && ReverseKey(key) != k
  }

  /** These events lead from one cache to the other, and spare the connection on the way. */
  ghost predicate Reaches(judge: Judge, k: StreamKey, v0: Streams, es: seq<Event>, v: Streams)
    decreases |es|
  {
    if es == [] then v == v0
    else
      var m := |es| - 1;
      exists u :: Reaches(judge, k, v0, es[..m], u) && Step(judge, u, es[m], v) && Spares(k, u, es[m])
  }

  // ----- one event

  lemma {:induction false} OtherPayload(k: StreamKey, v: Streams, key: StreamKey, a: Arrival, now: int, kept: Streams)
    requires Bounded(v) && 0 < |a.data| <= MAX_BYTES && key != k && AddStep(v, key, a, now, kept)
    requires k in v ==> !Idle(v[k], now)
    requires var u := Unexpired(v, now); k in u ==> Secure(u, k, key, Received(Previous(u, key), a, now))
    ensures Bounded(kept) && Previous(kept, k) == Previous(v, k)
  {
    StepKeepsLimits(v, key, a, now, kept);
    StepEvictsOldest(v, key, a, now, kept);
    if k in v {
      SurvivesIff(v, k, key, a, now, kept);
    }
    assert k in kept ==> k in kept - {key};
  }

  lemma {:induction false} WithoutIsBounded(v: Streams, gone: set<StreamKey>)
    requires Bounded(v)
    ensures Bounded(v - gone)
  {
    PartIsBounded(v - gone, v);
  }

  /** The cache before the verdict. */
  lemma {:induction false} KeptBefore(judge: Judge, v: Streams, e: Event, v': Streams) returns (kept: Streams)
    requires Step(judge, v, e, v') && e.Segment? && Decode(e.tcpSeg).Some?
    ensures AddStep(v, e.key, Decode(e.tcpSeg).value, e.at, kept) && (v' == kept || v' == kept - {e.key})
  {
    kept :| AddStep(v, e.key, Decode(e.tcpSeg).value, e.at, kept) &&
            v' == if Answer(judge, v, e.key, e.tcpSeg, e.at).1 then kept - {e.key} else kept;
  }

  lemma {:induction false} OtherSegment(k: StreamKey, v: Streams, e: Event, kept: Streams, v': Streams)
    requires Bounded(v) && Spares(k, v, e) && e.Segment? && e.key != k
    requires Decode(e.tcpSeg).Some? && (k in v ==> !Idle(v[k], e.at))
    requires AddStep(v, e.key, Decode(e.tcpSeg).value, e.at, kept) && (v' == kept || v' == kept - {e.key})
    ensures Bounded(v') && Previous(v', k) == Previous(v, k)
  {
    OtherPayload(k, v, e.key, Decode(e.tcpSeg).value, e.at, kept);
    WithoutIsBounded(kept, {e.key});
  }

  lemma {:induction false} NotIdleStays(v: Streams, k: StreamKey, now: int)
    requires k in v ==> !Idle(v[k], now)
    ensures Previous(Unexpired(v, now), k) == Previous(v, k)
  {
  }

  /** What is not a payload of the connection leaves its stream alone. */
  lemma {:induction false} OtherEvent(judge: Judge, k: StreamKey, v: Streams, e: Event, v': Streams)
    requires Bounded(v) && Step(judge, v, e, v') && Spares(k, v, e) && !ArrivesAt(k, e)
    requires k in v && Expires(e) ==> !Idle(v[k], e.at)
    ensures Bounded(v') && Previous(v', k) == Previous(v, k)
  {
    match e
    case Segment(_, tcpSeg, _) =>
      if Decode(tcpSeg).Some? {
        var kept := KeptBefore(judge, v, e, v');
        OtherSegment(k, v, e, kept, v');
      }
    case Cleanup(now) =>
      UnexpiredIsBounded(v, now);
      NotIdleStays(v, k, now);
    case Close(key) =>
      WithoutIsBounded(v, {key, ReverseKey(key)});
  }

  /** A payload of the connection is judged with what its stream holds; a recognised stream is released. */
  lemma {:induction false} OwnPayload(judge: Judge, k: StreamKey, v: Streams, e: Event, v': Streams)
    requires Bounded(v) && ArrivesAt(k, e) && Step(judge, v, e, v')
    requires k in v ==> !Idle(v[k], e.at)
    ensures Bounded(v')
    ensures var st := Received(Previous(v, k), Decode(e.tcpSeg).value, e.at);
            var found := judge(Assembled(st.segments, st.baseSeq));
            && Answer(judge, v, k, e.tcpSeg, e.at) == (if found.proto != Tcp then (found, true) else (PLAIN_TCP, false))
            && Previous(v', k) == if found.proto != Tcp then None else Some(st)
  {
    var a := Decode(e.tcpSeg).value;
    var kept :| AddStep(v, k, a, e.at, kept) &&
                v' == if Answer(judge, v, k, e.tcpSeg, e.at).1 then kept - {k} else kept;
    StepKeepsLimits(v, k, a, e.at, kept);
    WithoutIsBounded(kept, {k});
    NotIdleStays(v, k, e.at);
  }

  // ----- every event has an outcome

  lemma {:induction false} OldestExists(v: Streams, except: set<StreamKey>, k: StreamKey)
    requires k in v && k !in except
    ensures exists r :: IsOldest(v, r, except)
    decreases |v|
  {
    if !IsOldest(v, k, except) {
      var j :| j in v && j !in except && v[j].lastSeen < v[k].lastSeen;
      OldestExists(v - {k}, except, j);
      var r :| IsOldest(v - {k}, r, except);
      assert v[r].lastSeen <= v[j].lastSeen;
      assert forall x <- v :: x == k || x in v - {k};
      assert IsOldest(v, r, except);
    }
  }

  lemma {:induction false} EvictionExists(v: Streams, key: StreamKey) returns (v': Streams)
    requires key in v && Sound(v[key])
    ensures EvictedTo(v, key, v')
    decreases |v|
  {
    if Held(v) <= MAX_TOTAL {
      v' := v;
    } else {
      OneStreamFits(v, key);
      var k :| k in v && k != key;
      OldestExists(v, {key}, k);
      var r :| IsOldest(v, r, {key});
      v' := EvictionExists(v - {r}, key);
      EvictionContinues(v, r, key);
    }
  }

  lemma {:induction false} RoomExists(v: Streams, key: StreamKey) returns (room: Streams)
    ensures MakesRoom(v, key, room)
  {
    if key in v || |v| < MAX_COUNT {
      room := v;
    } else {
      var k :| k in v;
      OldestExists(v, {}, k);
      var r :| IsOldest(v, r, {});
      room := v - {r};
    }
  }

  lemma {:induction false} PayloadPossible(v: Streams, key: StreamKey, a: Arrival, now: int) returns (kept: Streams)
    requires Bounded(v) && 0 < |a.data| <= MAX_BYTES
    ensures AddStep(v, key, a, now, kept)
  {
    var u := Unexpired(v, now);
    var st := Received(Previous(u, key), a, now);
    UnexpiredIsBounded(v, now);
    ReceivedIsSound(Previous(u, key), a, now);
    var room := RoomExists(u, key);
    kept := EvictionExists(room[key := st], key);
  }

  /** A cache within its limits takes any event. */
  lemma {:induction false} StepPossible(judge: Judge, v: Streams, e: Event) returns (v': Streams)
    requires Bounded(v)
    ensures Step(judge, v, e, v')
  {
    match e
    case Segment(key, tcpSeg, now) =>
      if Decode(tcpSeg).None? {
        v' := v;
      } else {
        var kept := PayloadPossible(v, key, Decode(tcpSeg).value, now);
        v' := if Answer(judge, v, key, tcpSeg, now).1 then kept - {key} else kept;
      }
    case Cleanup(now) => v' := Unexpired(v, now);
    case Close(key) => v' := v - {key, ReverseKey(key)};
  }

  /** And is within its limits again, whichever streams were evicted. */
  lemma {:induction false} StepIsBounded(judge: Judge, v: Streams, e: Event, v': Streams)
    requires Bounded(v) && Step(judge, v, e, v')
    ensures Bounded(v')
  {
    match e
    case Segment(key, tcpSeg, now) =>
      if Decode(tcpSeg).Some? {
        var kept := KeptBefore(judge, v, e, v');
        StepKeepsLimits(v, key, Decode(tcpSeg).value, now, kept);
        WithoutIsBounded(kept, {key});
      }
    case Cleanup(now) => UnexpiredIsBounded(v, now);
    case Close(key) => WithoutIsBounded(v, {key, ReverseKey(key)});
  }

  /** A run of a connection's own segments and of cleanups spares it, from any cache and for any contents. */
  lemma {:induction false} OwnRunPossible(judge: Judge, k: StreamKey, v0: Streams, es: seq<Event>) returns (v: Streams)
    requires Bounded(v0) && forall e <- es :: e.Cleanup? || (e.Segment? && e.key == k)
    ensures Reaches(judge, k, v0, es, v) && Bounded(v)
    decreases |es|
  {
    if es == [] {
      v := v0;
    } else {
      var m := |es| - 1;
      assert es[m] in es && forall e <- es[..m] :: e in es;
      var u := OwnRunPossible(judge, k, v0, es[..m]);
      v := StepPossible(judge, u, es[m]);
      StepIsBounded(judge, u, es[m], v);
      assert Spares(k, u, es[m]);
    }
  }

  // ----- runs

  lemma {:induction false} InitAndLast<T>(s: seq<T>)
    requires s != []
    ensures s == s[..|s| - 1] + [s[|s| - 1]]
  {
  }

  /** How the stream is judged when these pieces have arrived. */
  ghost function Judged(judge: Judge, s: Bytes, isn: uint32, ps: seq<Piece>): Verdict
    requires PiecesOf(s, ps) && ps != []
  {
    var st := After(s, isn, ps).value;
    judge(Assembled(st.segments, st.baseSeq))
  }

  /** After none of the pieces so far was the stream recognised. */
  ghost predicate Unrecognised(judge: Judge, s: Bytes, isn: uint32, ps: seq<Piece>)
    requires PiecesOf(s, ps)
  {
    ps == [] ||
    (&& Judged(judge, s, isn, ps).proto == Tcp
     && PiecesOf(s, ps[..|ps| - 1]) && Unrecognised(judge, s, isn, ps[..|ps| - 1]))
  }

  /** The cache holds the connection's stream just as the pieces alone make it. */
  ghost predicate HoldsStream(k: StreamKey, s: Bytes, isn: uint32, es: seq<Event>, ps: seq<Piece>, v: Streams)
    requires PiecesOf(s, ps)
  {
    && Bounded(v) && Previous(v, k) == After(s, isn, ps)
    && LastAt(k, es) == if k in v then Some(v[k].lastSeen) else None
  }

  /** The connection's next payload. */
  lemma {:induction false} NextPayload(judge: Judge, k: StreamKey, s: Bytes, isn: uint32, es: seq<Event>,
                                       ps: seq<Piece>, p: Piece, v: Streams, e: Event, v': Streams)
    requires PiecesOf(s, ps + [p]) && PiecesOf(s, ps) && HoldsStream(k, s, isn, es, ps, v)
    requires ArrivesAt(k, e) && Decode(e.tcpSeg).value == ArrivalOf(s, isn, p) && p.at == e.at
    requires Step(judge, v, e, v') && Timely(k, es + [e])
    ensures var r := Judged(judge, s, isn, ps + [p]);
            && Bounded(v')
            && Answer(judge, v, k, e.tcpSeg, e.at) == (if r.proto != Tcp then (r, true) else (PLAIN_TCP, false))
            && Previous(v', k) == (if r.proto != Tcp then None else After(s, isn, ps + [p]))
            && (r.proto == Tcp ==> HoldsStream(k, s, isn, es + [e], ps + [p], v'))
  {
    assert (ps + [p])[..|ps|] == ps && (es + [e])[..|es|] == es;
    OwnPayload(judge, k, v, e, v');
  }

  lemma {:induction false} OtherThanPayload(judge: Judge, k: StreamKey, s: Bytes, isn: uint32, es: seq<Event>,
                                            ps: seq<Piece>, v: Streams, e: Event, v': Streams)
    requires PiecesOf(s, ps) && HoldsStream(k, s, isn, es, ps, v) && !ArrivesAt(k, e)
    requires Step(judge, v, e, v') && Spares(k, v, e) && Timely(k, es + [e])
    ensures HoldsStream(k, s, isn, es + [e], ps, v')
  {
    assert (es + [e])[..|es|] == es;
    OtherEvent(judge, k, v, e, v');
  }

  /**
   * Over any run that spares the connection and in which none of its payloads made its stream recognised, the
   * cache holds that stream just as its payloads alone make it.
   */
  lemma {:induction false} StreamIsFollowed(judge: Judge, k: StreamKey, v0: Streams, es: seq<Event>, v: Streams,
                                            s: Bytes, isn: uint32, ps: seq<Piece>)
    requires Bounded(v0) && k !in v0 && Reaches(judge, k, v0, es, v)
    requires Sends(k, s, isn, es, ps) && Timely(k, es) && Unrecognised(judge, s, isn, ps)
    ensures HoldsStream(k, s, isn, es, ps, v)
    decreases |es|
  {
    if es != [] {
      var m := |es| - 1;
      var init, e := es[..m], es[m];
      InitAndLast(es);
      var u :| Reaches(judge, k, v0, init, u) && Step(judge, u, e, v) && Spares(k, u, e);
      if ArrivesAt(k, e) {
        var n := |ps| - 1;
        InitAndLast(ps);
        StreamIsFollowed(judge, k, v0, init, u, s, isn, ps[..n]);
        NextPayload(judge, k, s, isn, init, ps[..n], ps[n], u, e, v);
      } else {
        StreamIsFollowed(judge, k, v0, init, u, s, isn, ps);
        OtherThanPayload(judge, k, s, isn, init, ps, u, e, v);
      }
    }
  }

  /** So the next payload is answered as the pieces alone are judged, and releases the stream if it is recognised. */
  lemma {:induction false} AnsweredAsJudged(judge: Judge, k: StreamKey, v0: Streams, es: seq<Event>, v: Streams,
                                              s: Bytes, isn: uint32, ps: seq<Piece>, p: Piece, e: Event, v': Streams)
    requires Bounded(v0) && k !in v0 && Reaches(judge, k, v0, es, v) && Step(judge, v, e, v')
    requires Sends(k, s, isn, es, ps) && Unrecognised(judge, s, isn, ps) && Timely(k, es + [e])
    requires PiecesOf(s, ps + [p])
    requires ArrivesAt(k, e) && Decode(e.tcpSeg).value == ArrivalOf(s, isn, p) && p.at == e.at
    ensures var r := Judged(judge, s, isn, ps + [p]);
            && Answer(judge, v, k, e.tcpSeg, e.at) == (if r.proto != Tcp then (r, true) else (PLAIN_TCP, false))
            && Previous(v', k) == if r.proto != Tcp then None else After(s, isn, ps + [p])
  {
    assert (es + [e])[..|es|] == es;
    StreamIsFollowed(judge, k, v0, es, v, s, isn, ps);
    NextPayload(judge, k, s, isn, es, ps, p, v, e, v');
  }

  // ----- a ClientHello

  /** So far the start has always been kept and the message has never been whole. */
  ghost predicate Pending(h: Bytes, ps: seq<Piece>) {
    ps == [] || (0 in Kept(ps) && !Whole(h, Kept(ps)) && Pending(h, ps[..|ps| - 1]))
  }

  lemma {:induction false} JudgedIsReported(http: HttpReader, s: Bytes, isn: uint32, ps: seq<Piece>)
    requires PiecesOf(s, ps) && ps != []
    ensures Judged(JudgeOf(http), s, isn, ps) == Report(http, s, isn, ps)
  {
  }

  /** A pending ClientHello has been answered with plain TCP every time. */
  lemma {:induction false} PendingIsUnrecognised(http: HttpReader, h: Bytes, isn: uint32, ps: seq<Piece>)
    requires IsHelloRecord(h) && Sni(h).proto == Https && RejectsTls(http)
    requires PiecesOf(h, ps) && Pending(h, ps) && (ps != [] ==> ps[0].from == 0)
    ensures Unrecognised(JudgeOf(http), h, isn, ps)
    decreases |ps|
  {
    if ps != [] {
      var init := ps[..|ps| - 1];
      assert forall p <- init :: p in ps;
      JudgedIsReported(http, h, isn, ps);
      ReportedIff(http, h, isn, ps);
      PendingIsUnrecognised(http, h, isn, init);
    }
  }

  /**
   * A ClientHello in a cache that has nothing of its connection, while the stream has not been recognised: a payload
   * after which what is kept covers the message is answered with the ClientHello's verdict, and the stream is gone;
   * any other after which the start is kept is answered with plain TCP and the stream goes on. In between other
   * connections, cleanups and closings do as they like.
   */
  lemma {:induction false} HelloAnsweredIff(http: HttpReader, k: StreamKey, v0: Streams, es: seq<Event>, v: Streams,
                                            h: Bytes, isn: uint32, ps: seq<Piece>, p: Piece, e: Event, v': Streams)
    requires IsHelloRecord(h) && Sni(h).proto == Https && RejectsTls(http)
    requires Bounded(v0) && k !in v0 && Reaches(JudgeOf(http), k, v0, es, v) && Step(JudgeOf(http), v, e, v')
    requires Sends(k, h, isn, es, ps) && Timely(k, es + [e]) && PiecesOf(h, ps + [p]) && (ps + [p])[0].from == 0
    requires ArrivesAt(k, e) && Decode(e.tcpSeg).value == ArrivalOf(h, isn, p) && p.at == e.at
    requires Unrecognised(JudgeOf(http), h, isn, ps) && 0 in Kept(ps + [p])
    ensures var whole := Whole(h, Kept(ps + [p]));
            && Answer(JudgeOf(http), v, k, e.tcpSeg, e.at) == (if whole then (Sni(h), true) else (PLAIN_TCP, false))
            && Previous(v', k) == if whole then None else After(h, isn, ps + [p])
  {
    AnsweredAsJudged(JudgeOf(http), k, v0, es, v, h, isn, ps, p, e, v');
    JudgedIsReported(http, h, isn, ps + [p]);
    ReportedIff(http, h, isn, ps + [p]);
  }

  lemma {:induction false} SentMore(ps: seq<Piece>, more: seq<Piece>, o: nat)
    requires Sent(ps, o)
    ensures Sent(ps + more, o)
  {
    var p :| p in ps && p.from <= o < p.from + p.len;
    assert p in ps + more;
  }

  /** While everything fits and something is missing, the ClientHello is pending. */
  lemma {:induction false} FittingIsPending(h: Bytes, ps: seq<Piece>)
    requires Fits(ps) && !Complete(h, ps) && (ps != [] ==> ps[0].from == 0)
    ensures Pending(h, ps)
    decreases |ps|
  {
    if ps != [] {
      var n := |ps| - 1;
      var init := ps[..n];
      FittingKeepsAll(h, ps);
      LongestGrows(ps, n);
      assert ps == init + [ps[n]];
      if Complete(h, init) {
        forall o | 0 <= o < |h|
          ensures Sent(ps, o)
        {
          SentMore(init, [ps[n]], o);
        }
      }
      FittingIsPending(h, init);
    }
  }

  /**
   * A ClientHello built for any host, of at most 4096 bytes, cut anywhere and retransmitted as it was cut: the cache
   * answers plain TCP until the last gap closes, then HTTPS with the host name, and has let go of the stream.
   */
  lemma {:induction false} CutHelloAnswered(http: HttpReader, k: StreamKey, v0: Streams, es: seq<Event>, v: Streams,
                                            hello: ClientHello, isn: uint32, lens: seq<nat>, ps: seq<Piece>, p: Piece,
                                            e: Event, v': Streams)
    requires Encodable(hello) && |Record(hello)| <= MAX_BYTES && RejectsTls(http)
    requires (forall n <- lens :: n > 0) && Total(lens) == |Record(hello)| && FromCut(lens, ps + [p])
    requires Bounded(v0) && k !in v0 && Reaches(JudgeOf(http), k, v0, es, v) && Step(JudgeOf(http), v, e, v')
    requires Sends(k, Record(hello), isn, es, ps) && Timely(k, es + [e]) && (ps + [p])[0].from == 0
    requires ArrivesAt(k, e) && p.from + p.len <= |Record(hello)|
    requires Decode(e.tcpSeg).value == ArrivalOf(Record(hello), isn, p) && p.at == e.at
    requires !Complete(Record(hello), ps)
    ensures PiecesOf(Record(hello), ps + [p])
    ensures var done := Complete(Record(hello), ps + [p]);
            && Answer(JudgeOf(http), v, k, e.tcpSeg, e.at) ==
               (if done then (Verdict(Https, HostName(hello)), true)
                else (PLAIN_TCP, false))
            && Previous(v', k) == if done then None else After(Record(hello), isn, ps + [p])
  {
    var h := Record(hello);
    RecordIsHello(hello);
    CutPieces(h, lens, ps + [p]);
    LongestGrows(ps + [p], |ps|);
    assert (ps + [p])[..|ps|] == ps && (ps != [] ==> ps[0] == (ps + [p])[0]);
    FittingIsPending(h, ps);
    PendingIsUnrecognised(http, h, isn, ps);
    FittingKeepsAll(h, ps + [p]);
    HelloAnsweredIff(http, k, v0, es, v, h, isn, ps, p, e, v');
  }

  lemma {:induction false} OnePieceKept(h: Bytes, p: Piece)
    requires p.from == 0 && 0 < p.len < |h| <= MAX_BYTES
    ensures 0 in Kept([p]) && !Whole(h, Kept([p]))
  {
    assert [p][..0] == [];
    SumOfTwo(map[], 0, p.len);
    assert Longer(map[], p) == map[0 := p.len];
    assert !Covered(map[0 := p.len], p.len);
  }

  lemma {:induction false} NoEvents(judge: Judge, k: StreamKey, v: Streams, s: Bytes, isn: uint32, e: Event,
                                    es: seq<Event>, ps: seq<Piece>)
    requires es == [] && ps == []
    ensures Reaches(judge, k, v, es, v) && Sends(k, s, isn, es, ps) && Timely(k, es + [e])
    ensures Unrecognised(judge, s, isn, ps)
  {
    var one := es + [e];
    assert |one| == 1 && one[..0] == es;
    assert Timely(k, es) && LastAt(k, one[..0]).None?;
  }

  /** The first payload of a connection. */
  lemma {:induction false} FirstAnswered(http: HttpReader, k: StreamKey, v: Streams, h: Bytes, isn: uint32,
                                         es: seq<Event>, ps: seq<Piece>, p: Piece, e: Event, v': Streams)
    requires IsHelloRecord(h) && Sni(h).proto == Https && RejectsTls(http) && es == [] && ps == []
    requires Bounded(v) && k !in v && Step(JudgeOf(http), v, e, v') && PiecesOf(h, ps + [p])
    requires (ps + [p])[0].from == 0 && 0 in Kept(ps + [p]) && !Whole(h, Kept(ps + [p]))
    requires ArrivesAt(k, e) && Decode(e.tcpSeg).value == ArrivalOf(h, isn, p) && p.at == e.at
    ensures Answer(JudgeOf(http), v, k, e.tcpSeg, e.at) == (PLAIN_TCP, false)
    ensures Previous(v', k) == After(h, isn, ps + [p])
  {
    NoEvents(JudgeOf(http), k, v, h, isn, e, es, ps);
    HelloAnsweredIff(http, k, v, es, v, h, isn, ps, p, e, v');
  }

  /** After the release a retransmission is judged on its own: the start of the message alone is plain TCP again. */
  lemma {:induction false} LateStartIsPlain(http: HttpReader, k: StreamKey, v: Streams, h: Bytes, isn: uint32,
                                            p: Piece, e: Event, v': Streams)
    requires IsHelloRecord(h) && Sni(h).proto == Https && RejectsTls(http)
    requires Bounded(v) && k !in v && Step(JudgeOf(http), v, e, v') && PiecesOf(h, [p]) && p.from == 0 && p.len < |h|
    requires ArrivesAt(k, e) && Decode(e.tcpSeg).value == ArrivalOf(h, isn, p) && p.at == e.at
    ensures Answer(JudgeOf(http), v, k, e.tcpSeg, e.at) == (PLAIN_TCP, false) && Previous(v', k) == After(h, isn, [p])
  {
    assert [] + [p] == [p];
    OnePieceKept(h, p);
    FirstAnswered(http, k, v, h, isn, [], [], p, e, v');
  }

  // ----- any stream

  /**
   * For any byte stream whose pieces arrive in any order within half the sequence space: in the cache, too, the base is
   * the number of the lowest byte seen and the assembled bytes are the longest gap-free run from the lowest byte kept.
   */
  lemma {:induction false} AnyOrderInCache(judge: Judge, k: StreamKey, v0: Streams, es: seq<Event>, v: Streams,
                                           s: Bytes, isn: uint32, ps: seq<Piece>, hi: nat)
    requires Bounded(v0) && k !in v0 && Reaches(judge, k, v0, es, v)
    requires Sends(k, s, isn, es, ps) && Timely(k, es) && Unrecognised(judge, s, isn, ps) && ps != []
    requires (forall p <- ps :: p.len <= MAX_BYTES && p.from <= hi) && hi - LowestFrom(ps) < HALF_SPACE
    ensures k in v && v[k].baseSeq == SeqOf(isn, LowestFrom(ps)) && v[k].segments != map[]
    ensures var st, b := v[k], LowestFrom(ps);
            IsLongestRun(s, b, st.segments, st.baseSeq, Offset(b, Lowest(st.segments, st.baseSeq), st.baseSeq),
                         Assembled(st.segments, st.baseSeq))
  {
    StreamIsFollowed(judge, k, v0, es, v, s, isn, ps);
    AnyOrderAssembles(s, isn, ps, hi);
  }
}
