/**
 * A ClientHello cut anywhere and sent in order: the simplest runs of the cache, from any cache that does not
 * hold the connection yet. They meet what `CacheRuns` asks of a run, and show the answers one by one.
 */
module InOrderRuns {
  import opened Wire
  import opened TcpSegments
  import opened SniParser
  import opened TcpStreams
  import opened StreamCache
  import opened HelloRun
  import opened CacheRuns

  // ----- the cut

  function PieceAt(lens: seq<nat>, j: nat, at: int): Piece
    requires j < |lens|
  {
    Piece(Total(lens[..j]), lens[j], at)
  }

  /** The first `n` pieces in order, all at the same moment. */
  function Pieces(lens: seq<nat>, n: nat, at: int): seq<Piece>
    requires n <= |lens|
  {
    if n == 0 then [] else Pieces(lens, n - 1, at) + [PieceAt(lens, n - 1, at)]
  }

  lemma {:induction false} TotalNext(lens: seq<nat>, n: nat)
    requires n < |lens|
    ensures Total(lens[..n + 1]) == Total(lens[..n]) + lens[n]
  {
    var next := lens[..n + 1];
    assert next[..n] == lens[..n] && next[n] == lens[n];
  }

  lemma {:induction false} TotalGrows(lens: seq<nat>, n: nat)
    requires n <= |lens|
    ensures Total(lens[..n]) <= Total(lens)
    decreases |lens| - n
  {
    if n == |lens| {
      assert lens[..n] == lens;
    } else {
      TotalNext(lens, n);
      TotalGrows(lens, n + 1);
    }
  }

  lemma {:induction false} PieceFits(h: Bytes, lens: seq<nat>, j: nat, at: int)
    requires j < |lens| && (forall n <- lens :: n > 0) && Total(lens) == |h|
    ensures var p := PieceAt(lens, j, at); p.len > 0 && p.from + p.len <= |h| && (p.from == 0 <==> j == 0)
  {
    TotalNext(lens, j);
    TotalGrows(lens, j + 1);
    assert lens[j] in lens;
    if j > 0 {
      TotalNext(lens, j - 1);
      assert lens[j - 1] in lens;
    } else {
      assert lens[..j] == [];
    }
  }

  lemma {:induction false} PiecesFit(h: Bytes, lens: seq<nat>, n: nat, at: int)
    requires n <= |lens| && (forall x <- lens :: x > 0) && Total(lens) == |h|
    ensures PiecesOf(h, Pieces(lens, n, at)) && FromCut(lens, Pieces(lens, n, at)) && |Pieces(lens, n, at)| == n
    ensures n > 0 ==> Pieces(lens, n, at)[0].from == 0
  {
    if n > 0 {
      PiecesFit(h, lens, n - 1, at);
      PieceFits(h, lens, n - 1, at);
      assert IsCutPiece(lens, n - 1, PieceAt(lens, n - 1, at));
    }
  }

  /** What has been sent is the message up to the last piece. */
  lemma {:induction false} SentSoFar(lens: seq<nat>, n: nat, at: int, o: nat)
    requires n <= |lens|
    ensures Sent(Pieces(lens, n, at), o) <==> o < Total(lens[..n])
  {
    if n == 0 {
      assert lens[..n] == [];
    } else {
      var init, p := Pieces(lens, n - 1, at), PieceAt(lens, n - 1, at);
      SentSoFar(lens, n - 1, at, o);
      TotalNext(lens, n - 1);
      SentWith(init, p, o);
    }
  }

  lemma {:induction false} SentWith(ps: seq<Piece>, p: Piece, o: nat)
    ensures Sent(ps + [p], o) <==> Sent(ps, o) || p.from <= o < p.from + p.len
  {
    if Sent(ps, o) {
      var q :| q in ps && q.from <= o < q.from + q.len;
      assert q in ps + [p];
    }
    if p.from <= o < p.from + p.len {
      assert p in ps + [p];
    }
  }

  lemma {:induction false} CompleteAtLast(h: Bytes, lens: seq<nat>, n: nat, at: int)
    requires n <= |lens| && (forall x <- lens :: x > 0) && Total(lens) == |h|
    ensures Complete(h, Pieces(lens, n, at)) <==> n == |lens|
  {
    forall o: nat
      ensures Sent(Pieces(lens, n, at), o) <==> o < Total(lens[..n])
    {
      SentSoFar(lens, n, at, o);
    }
    if n == |lens| {
      assert lens[..n] == lens;
    } else {
      PieceFits(h, lens, n, at);
      assert !Sent(Pieces(lens, n, at), Total(lens[..n]));
    }
  }

  /** The cut so far, and one more piece. */
  lemma {:induction false} NextPiece(h: Bytes, lens: seq<nat>, ps: seq<Piece>, p: Piece, n: nat, at: int)
    requires n < |lens| && (forall x <- lens :: x > 0) && Total(lens) == |h|
    requires ps == Pieces(lens, n, at) && p == PieceAt(lens, n, at)
    ensures PiecesOf(h, ps) && PiecesOf(h, ps + [p]) && FromCut(lens, ps + [p])
    ensures p.len > 0 && p.from + p.len <= |h| && (ps + [p])[0].from == 0
    ensures !Complete(h, ps) && (Complete(h, ps + [p]) <==> n + 1 == |lens|)
  {
    var next := n + 1;
    assert ps + [p] == Pieces(lens, next, at);
    PiecesFit(h, lens, n, at);
    PiecesFit(h, lens, next, at);
    PieceFits(h, lens, n, at);
    CompleteAtLast(h, lens, n, at);
    CompleteAtLast(h, lens, next, at);
  }

  // ----- the segments

  /** A segment without options that carries a piece. */
  function SegmentOf(k: StreamKey, h: Bytes, isn: uint32, p: Piece): Event
    requires p.from + p.len <= |h|
  {
    Event.Segment(k, TcpSegment([0, 0, 0, 0], SeqOf(isn, p.from), [0, 0, 0, 0], 0x50, [0, 0, 0, 0, 0, 0, 0],
                          h[p.from..p.from + p.len]), p.at)
  }

  lemma {:induction false} SegmentArrives(k: StreamKey, h: Bytes, isn: uint32, p: Piece)
    requires 0 < p.len <= MAX_BYTES && p.from + p.len <= |h|
    ensures var e := SegmentOf(k, h, isn, p);
            ArrivesAt(k, e) && Decode(e.tcpSeg) == Some(ArrivalOf(h, isn, p)) && e.at == p.at
  {
    DecodeInverts([0, 0, 0, 0], SeqOf(isn, p.from), [0, 0, 0, 0], 0x50, [0, 0, 0, 0, 0, 0, 0],
                  h[p.from..p.from + p.len]);
  }

  ghost function Segments(k: StreamKey, h: Bytes, isn: uint32, ps: seq<Piece>): seq<Event>
    requires PiecesOf(h, ps)
  {
    if ps == [] then []
    else
      var n := |ps| - 1;
      assert ps[n] in ps;
      Segments(k, h, isn, ps[..n]) + [SegmentOf(k, h, isn, ps[n])]
  }

  lemma {:induction false} SnocParts<T>(s: seq<T>, x: T)
    ensures |s + [x]| == |s| + 1 && (s + [x])[|s|] == x && (s + [x])[..|s|] == s
  {
  }

  lemma {:induction false} SegmentsSend(k: StreamKey, h: Bytes, isn: uint32, ps: seq<Piece>)
    requires PiecesOf(h, ps) && |h| <= MAX_BYTES
    ensures Sends(k, h, isn, Segments(k, h, isn, ps), ps)
    decreases |ps|
  {
    if ps != [] {
      var n := |ps| - 1;
      assert ps[n] in ps;
      SegmentsSend(k, h, isn, ps[..n]);
      SegmentArrives(k, h, isn, ps[n]);
      SnocParts(Segments(k, h, isn, ps[..n]), SegmentOf(k, h, isn, ps[n]));
    }
  }

  /** The latest payload of such a run came at the one moment. */
  lemma {:induction false} SegmentsTimely(k: StreamKey, h: Bytes, isn: uint32, ps: seq<Piece>, at: int)
    requires PiecesOf(h, ps) && |h| <= MAX_BYTES && forall p <- ps :: p.at == at
    ensures Timely(k, Segments(k, h, isn, ps))
    ensures LastAt(k, Segments(k, h, isn, ps)).Some? ==> LastAt(k, Segments(k, h, isn, ps)).value == at
    decreases |ps|
  {
    if ps != [] {
      var n := |ps| - 1;
      assert ps[n] in ps;
      SegmentsTimely(k, h, isn, ps[..n], at);
      SegmentArrives(k, h, isn, ps[n]);
      SnocParts(Segments(k, h, isn, ps[..n]), SegmentOf(k, h, isn, ps[n]));
    }
  }

  lemma {:induction false} SegmentsAreOwn(k: StreamKey, h: Bytes, isn: uint32, ps: seq<Piece>)
    requires PiecesOf(h, ps)
    ensures forall e <- Segments(k, h, isn, ps) :: e.Segment? && e.key == k
  {
    if ps != [] {
      SegmentsAreOwn(k, h, isn, ps[..|ps| - 1]);
    }
  }

  // ----- the answers

  lemma {:induction false} SameMoment(lens: seq<nat>, n: nat, at: int)
    requires n <= |lens|
    ensures forall p <- Pieces(lens, n, at) :: p.at == at
  {
    if n > 0 {
      SameMoment(lens, n - 1, at);
    }
  }

  /** One more piece. */
  lemma {:induction false} NextTimely(k: StreamKey, h: Bytes, isn: uint32, ps: seq<Piece>, p: Piece, at: int)
    requires PiecesOf(h, ps) && PiecesOf(h, ps + [p]) && |h| <= MAX_BYTES && p.len > 0 && p.from + p.len <= |h|
    requires p.at == at && forall q <- ps :: q.at == at
    ensures Timely(k, Segments(k, h, isn, ps) + [SegmentOf(k, h, isn, p)])
  {
    SnocParts(ps, p);
    SegmentsTimely(k, h, isn, ps + [p], at);
  }

  /**
   * Whatever the host and the cut: the cache takes the pieces one after the other, answers plain TCP to all but
   * the last, and to that HTTPS with the host name, and has then let go of the connection.
   */
  lemma {:induction false} InOrderAnswered(http: HttpReader, k: StreamKey, v0: Streams, hello: ClientHello, isn: uint32,
                                           lens: seq<nat>, n: nat, at: int)
    returns (v: Streams, e: Event, v': Streams)
    requires Encodable(hello) && |Record(hello)| <= MAX_BYTES && RejectsTls(http) && Bounded(v0) && k !in v0
    requires (forall x <- lens :: x > 0) && Total(lens) == |Record(hello)| && n < |lens|
    ensures PiecesOf(Record(hello), Pieces(lens, n, at)) && PieceAt(lens, n, at).from + lens[n] <= |Record(hello)|
    ensures e == SegmentOf(k, Record(hello), isn, PieceAt(lens, n, at))
    ensures Reaches(JudgeOf(http), k, v0, Segments(k, Record(hello), isn, Pieces(lens, n, at)), v)
    ensures Step(JudgeOf(http), v, e, v')
    ensures Answer(JudgeOf(http), v, k, e.tcpSeg, e.at) ==
            if n + 1 == |lens| then (Verdict(Https, HostName(hello)), true)
            else (PLAIN_TCP, false)
    ensures k in v' <==> n + 1 < |lens|
  {
    var ps, p := Pieces(lens, n, at), PieceAt(lens, n, at);
    NextPiece(Record(hello), lens, ps, p, n, at);
    v, e, v' := PieceAnswered(http, k, v0, hello, isn, lens, ps, p, at, n);
  }

  /** The run, its next segment and the answer. */
  lemma {:induction false} PieceAnswered(http: HttpReader, k: StreamKey, v0: Streams, hello: ClientHello, isn: uint32,
                                         lens: seq<nat>, ps: seq<Piece>, p: Piece, at: int, n: nat)
    returns (v: Streams, e: Event, v': Streams)
    requires Encodable(hello) && |Record(hello)| <= MAX_BYTES && RejectsTls(http) && Bounded(v0) && k !in v0
    requires (forall x <- lens :: x > 0) && Total(lens) == |Record(hello)| && n < |lens| && ps == Pieces(lens, n, at)
    requires PiecesOf(Record(hello), ps) && PiecesOf(Record(hello), ps + [p]) && FromCut(lens, ps + [p])
    requires p.len > 0 && p.from + p.len <= |Record(hello)| && p.at == at && (ps + [p])[0].from == 0
    requires !Complete(Record(hello), ps)
    ensures e == SegmentOf(k, Record(hello), isn, p)
    ensures Reaches(JudgeOf(http), k, v0, Segments(k, Record(hello), isn, ps), v) && Step(JudgeOf(http), v, e, v')
    ensures var done := Complete(Record(hello), ps + [p]);
            && Answer(JudgeOf(http), v, k, e.tcpSeg, e.at) ==
               (if done then (Verdict(Https, HostName(hello)), true)
                else (PLAIN_TCP, false))
            && (k in v' <==> !done)
  {
    var h := Record(hello);
    var es := Segments(k, h, isn, ps);
    e := SegmentOf(k, h, isn, p);
    SegmentArrives(k, h, isn, p);
    SegmentsSend(k, h, isn, ps);
    SameMoment(lens, n, at);
    NextTimely(k, h, isn, ps, p, at);
    SegmentsAreOwn(k, h, isn, ps);
    v := OwnRunPossible(JudgeOf(http), k, v0, es);
    v' := StepPossible(JudgeOf(http), v, e);
    CutHelloAnswered(http, k, v0, es, v, hello, isn, lens, ps, p, e, v');
  }
}
