/**
 * A ClientHello that arrives in pieces: cut anywhere, in any order, with retransmissions.
 * The stream reports plain TCP until the last gap closes, and then the host name.
 */
module HelloRun {
  import opened Wire
  import opened MapSum
  import opened TcpSegments
  import opened SniParser
  import opened CommonProtocols
  import opened TcpStreams

  /** One transmission: `len` bytes of the message from offset `from` on, at time `at`. */
  datatype Piece = Piece(from: nat, len: nat, at: int)

  ghost predicate PiecesOf(h: Bytes, ps: seq<Piece>) {
    forall p <- ps :: p.len > 0 && p.from + p.len <= |h|
  }

  function ArrivalOf(h: Bytes, isn: uint32, p: Piece): Arrival
    requires p.from + p.len <= |h|
  {
    Arrival(SeqOf(isn, p.from), h[p.from..p.from + p.len])
  }

  /** The stream after the pieces have been added to an empty one. */
  ghost function After(h: Bytes, isn: uint32, ps: seq<Piece>): Option<Stream>
    requires PiecesOf(h, ps)
  {
    if ps == [] then None
    else
      var n := |ps| - 1;
      Some(Received(After(h, isn, ps[..n]), ArrivalOf(h, isn, ps[n]), ps[n].at))
  }

  /** What the cache reports for that stream. */
  ghost function Report(http: HttpReader, h: Bytes, isn: uint32, ps: seq<Piece>): Verdict
    requires PiecesOf(h, ps) && ps != []
  {
    var st := After(h, isn, ps).value;
    TcpVerdict(http, Assembled(st.segments, st.baseSeq))
  }

  /** The longest transmission seen from each offset. */
  ghost function Longest(ps: seq<Piece>): map<nat, nat> {
    if ps == [] then map[]
    else
      Longer(Longest(ps[..|ps| - 1]), ps[|ps| - 1])
  }

  function Longer(longest: map<nat, nat>, p: Piece): map<nat, nat> {
    if p.from in longest && longest[p.from] >= p.len then longest else longest[p.from := p.len]
  }

  ghost predicate IsLeast(s: set<nat>, x: nat) {
    x in s && forall y <- s :: x <= y
  }

  ghost function LeastKey(m: map<nat, nat>): (x: nat)
    requires m != map[]
    ensures IsLeast(m.Keys, x)
  {
    LeastExists(m.Keys);
    var x :| IsLeast(m.Keys, x);
    x
  }

  lemma {:induction false} LeastWith(s: set<nat>, x: nat, y: nat)
    requires x in s && IsLeast(s - {x}, y)
    ensures IsLeast(s, if x <= y then x else y)
  {
    assert forall z <- s :: z == x || z in s - {x};
  }

  lemma {:induction false} LeastExists(s: set<nat>)
    requires s != {}
    ensures exists x :: IsLeast(s, x)
    decreases |s|
  {
    var x :| x in s;
    if s - {x} == {} {
      assert s == {x};
      assert IsLeast(s, x);
    } else {
      LeastExists(s - {x});
      var y :| IsLeast(s - {x}, y);
      LeastWith(s, x, y);
    }
  }

  /** Lowest pieces go until the rest fits the stream's limit. */
  ghost function Fitted(m: map<nat, nat>): map<nat, nat>
    decreases |m|
  {
    if Sum(m) <= MAX_BYTES || m == map[] then m else Fitted(m - {LeastKey(m)})
  }

  /** What is kept of the pieces: how long from which offset. */
  ghost function Kept(ps: seq<Piece>): map<nat, nat> {
    if ps == [] then map[] else Fitted(Longer(Kept(ps[..|ps| - 1]), ps[|ps| - 1]))
  }

  ghost predicate Covered(m: map<nat, nat>, o: nat) {
    exists x :: x in m && x <= o < x + m[x]
  }

  /** What is kept covers the whole message. */
  ghost predicate Whole(h: Bytes, m: map<nat, nat>) {
    forall o :: 0 <= o < |h| ==> Covered(m, o)
  }

  /** Everything that was sent, counted once for each offset it starts at, fits the stream's limit. */
  ghost predicate Fits(ps: seq<Piece>) {
    Sum(Longest(ps)) <= MAX_BYTES
  }

  ghost predicate Sent(ps: seq<Piece>, o: nat) {
    exists p :: p in ps && p.from <= o < p.from + p.len
  }

  /** No gap is left. */
  ghost predicate Complete(h: Bytes, ps: seq<Piece>) {
    forall o :: 0 <= o < |h| ==> Sent(ps, o)
  }

  /** `h` is one TLS record with a ClientHello, small enough to be buffered. */
  ghost predicate IsHelloRecord(h: Bytes) {
    HelloArrived(h) && RecordSize(h) == |h| <= MAX_BYTES
  }

  /** The library HTTP reader does not take a TLS record for an HTTP request. */
  ghost predicate RejectsTls(http: HttpReader) {
    forall d :: d != [] && d[0] == 0x16 ==> http(d).None?
  }

  // ----- the stream holds what is kept, at the right numbers

  /** The segments are these pieces of the message. */
  ghost predicate Mirrors(h: Bytes, isn: uint32, m: map<nat, nat>, segs: Segments) {
    && (forall x <- m :: m[x] > 0 && x + m[x] <= |h|)
    && (forall x {:trigger SeqOf(isn, x)} :: x in m ==> SeqOf(isn, x) in segs)
    && (forall q <- segs :: HoldsPiece(h, isn, m, q, segs[q]))
  }

  ghost predicate HoldsPiece(h: Bytes, isn: uint32, m: map<nat, nat>, q: uint32, data: Bytes) {
    var x := RelativeSeq(q, isn);
    x in m && x + m[x] <= |h| && data == h[x..x + m[x]]
  }

  lemma {:induction false} SeqOfRelative(isn: uint32, q: uint32)
    ensures SeqOf(isn, RelativeSeq(q, isn)) == q
  {
  }

  lemma {:induction false} RelativeOfSeq(isn: uint32, x: nat)
    requires x < 0x1_0000_0000
    ensures RelativeSeq(SeqOf(isn, x), isn) == x
  {
  }

  /** Storing one more piece keeps the segments a mirror of the longest transmissions. */
  lemma {:induction false} StoredMirrors(h: Bytes, isn: uint32, longest: map<nat, nat>, segs: Segments, p: Piece)
    requires Mirrors(h, isn, longest, segs) && |h| <= MAX_BYTES && p.len > 0 && p.from + p.len <= |h|
    ensures Mirrors(h, isn, Longer(longest, p), Stored(segs, ArrivalOf(h, isn, p)))
  {
    var a := ArrivalOf(h, isn, p);
    RelativeOfSeq(isn, p.from);
    assert a.seqNo in segs ==> |segs[a.seqNo]| == longest[p.from];
    assert p.from in longest ==> a.seqNo in segs;
    forall q | q in Stored(segs, a)
      ensures HoldsPiece(h, isn, Longer(longest, p), q, Stored(segs, a)[q])
    {
      SeqOfRelative(isn, q);
    }
  }

  lemma {:induction false} StoredSize(h: Bytes, isn: uint32, longest: map<nat, nat>, segs: Segments, p: Piece)
    requires Mirrors(h, isn, longest, segs) && |h| <= MAX_BYTES && p.len > 0 && p.from + p.len <= |h|
    requires Size(segs) == Sum(longest)
    ensures Size(Stored(segs, ArrivalOf(h, isn, p))) == Sum(Longer(longest, p))
  {
    var a := ArrivalOf(h, isn, p);
    RelativeOfSeq(isn, p.from);
    assert p.from in longest <==> a.seqNo in segs;
    SizePut(segs, a.seqNo, a.data);
    SumPut(longest, p.from, p.len);
    if p.from in longest {
      SumRemove(longest, p.from);
    } else {
      assert longest - {p.from} == longest;
    }
  }

  ghost predicate Mirror(h: Bytes, isn: uint32, m: map<nat, nat>, st: Stream) {
    && st.baseSeq == isn && Mirrors(h, isn, m, st.segments) && Size(st.segments) == Sum(m)
  }

  lemma {:induction false} UntrimmedMirrors(h: Bytes, isn: uint32, m: map<nat, nat>, prev: Option<Stream>, p: Piece)
    requires |h| <= MAX_BYTES && p.len > 0 && p.from + p.len <= |h|
    requires if prev.Some? then Mirror(h, isn, m, prev.value) else m == map[] && p.from == 0
    ensures Mirror(h, isn, Longer(m, p), Untrimmed(prev, ArrivalOf(h, isn, p), p.at))
  {
    assert Sizes(map[]) == map[];
    RelativeOfSeq(isn, p.from);
    var segs := if prev.Some? then prev.value.segments else map[];
    StoredMirrors(h, isn, m, segs, p);
    StoredSize(h, isn, m, segs, p);
  }

  lemma {:induction false} LowestMirrors(h: Bytes, isn: uint32, m: map<nat, nat>, segs: Segments)
    requires Mirrors(h, isn, m, segs) && |h| <= MAX_BYTES && m != map[]
    ensures segs != map[] && Lowest(segs, isn) == SeqOf(isn, LeastKey(m))
  {
    var x := LeastKey(m);
    var q := SeqOf(isn, x);
    assert q in segs;
    RelativeOfSeq(isn, x);
    forall p | p in segs
      ensures x <= RelativeSeq(p, isn)
    {
      assert HoldsPiece(h, isn, m, p, segs[p]);
    }
    LowestUnique(segs, isn, q);
  }

  lemma {:induction false} DropSizes(h: Bytes, isn: uint32, m: map<nat, nat>, segs: Segments, x: nat)
    requires Mirrors(h, isn, m, segs) && |h| <= MAX_BYTES && x in m && Size(segs) == Sum(m)
    ensures Size(segs - {SeqOf(isn, x)}) == Sum(m - {x})
  {
    var q := SeqOf(isn, x);
    RelativeOfSeq(isn, x);
    assert q in segs && HoldsPiece(h, isn, m, q, segs[q]);
    SizeRemove(segs, q);
    SumRemove(m, x);
  }

  lemma {:induction false} DropPiece(h: Bytes, isn: uint32, m: map<nat, nat>, x: nat, p: uint32, data: Bytes)
    requires HoldsPiece(h, isn, m, p, data) && p != SeqOf(isn, x)
    ensures HoldsPiece(h, isn, m - {x}, p, data)
  {
    SeqOfRelative(isn, p);
  }

  lemma {:induction false} DropMirrors(h: Bytes, isn: uint32, m: map<nat, nat>, segs: Segments, x: nat)
    requires Mirrors(h, isn, m, segs) && |h| <= MAX_BYTES && x in m
    ensures Mirrors(h, isn, m - {x}, segs - {SeqOf(isn, x)})
  {
    var q := SeqOf(isn, x);
    var rest, left := segs - {q}, m - {x};
    RelativeOfSeq(isn, x);
    forall y {:trigger SeqOf(isn, y)} | y in left
      ensures SeqOf(isn, y) in rest
    {
      assert y in m && SeqOf(isn, y) in segs;
      RelativeOfSeq(isn, y);
    }
    forall p | p in rest
      ensures HoldsPiece(h, isn, left, p, rest[p])
    {
      assert HoldsPiece(h, isn, m, p, segs[p]);
      DropPiece(h, isn, m, x, p, segs[p]);
    }
  }

  /** Trimming the segments is dropping the lowest pieces. */
  lemma {:induction false} TrimmedMirrors(h: Bytes, isn: uint32, m: map<nat, nat>, segs: Segments)
    requires Mirrors(h, isn, m, segs) && |h| <= MAX_BYTES && Size(segs) == Sum(m)
    ensures Mirrors(h, isn, Fitted(m), Trimmed(segs, isn)) && Size(Trimmed(segs, isn)) == Sum(Fitted(m))
    decreases |m|
  {
    if m == map[] {
      assert segs == map[];
    } else if Sum(m) > MAX_BYTES {
      LowestMirrors(h, isn, m, segs);
      DropMirrors(h, isn, m, segs, LeastKey(m));
      DropSizes(h, isn, m, segs, LeastKey(m));
      TrimmedMirrors(h, isn, m - {LeastKey(m)}, segs - {Lowest(segs, isn)});
    }
  }

  lemma {:induction false} ReceivedMirrors(h: Bytes, isn: uint32, m: map<nat, nat>, prev: Option<Stream>, p: Piece)
    requires |h| <= MAX_BYTES && p.len > 0 && p.from + p.len <= |h|
    requires if prev.Some? then Mirror(h, isn, m, prev.value) else m == map[] && p.from == 0
    ensures Mirror(h, isn, Fitted(Longer(m, p)), Received(prev, ArrivalOf(h, isn, p), p.at))
  {
    UntrimmedMirrors(h, isn, m, prev, p);
    TrimmedMirrors(h, isn, Longer(m, p), Untrimmed(prev, ArrivalOf(h, isn, p), p.at).segments);
  }

  /** Once the first byte has come first, the stream holds just what is kept. */
  lemma {:induction false} AfterMirrors(h: Bytes, isn: uint32, ps: seq<Piece>)
    requires |h| <= MAX_BYTES && PiecesOf(h, ps) && ps != [] && ps[0].from == 0
    ensures Mirror(h, isn, Kept(ps), After(h, isn, ps).value)
  {
    var n := |ps| - 1;
    assert ps[n] in ps && forall p <- ps[..n] :: p in ps;
    if n > 0 {
      AfterMirrors(h, isn, ps[..n]);
    }
    ReceivedMirrors(h, isn, Kept(ps[..n]), After(h, isn, ps[..n]), ps[n]);
  }

  /** The start of the message is held exactly if it is kept. */
  lemma {:induction false} StartHeldIff(h: Bytes, isn: uint32, ps: seq<Piece>)
    requires |h| <= MAX_BYTES && PiecesOf(h, ps) && ps != [] && ps[0].from == 0
    ensures isn in After(h, isn, ps).value.segments <==> 0 in Kept(ps)
  {
    AfterMirrors(h, isn, ps);
    var segs := After(h, isn, ps).value.segments;
    assert SeqOf(isn, 0) == isn && RelativeSeq(isn, isn) == 0;
    if isn in segs {
      assert HoldsPiece(h, isn, Kept(ps), isn, segs[isn]);
    }
  }

  // ----- what is assembled from it

  lemma {:induction false} CoversMeansCovered(h: Bytes, isn: uint32, m: map<nat, nat>, segs: Segments, o: nat)
    requires Mirrors(h, isn, m, segs) && |h| <= MAX_BYTES
    ensures Covers(segs, 0, isn, o) <==> Covered(m, o)
  {
    if Covers(segs, 0, isn, o) {
      var q :| q in segs && Offset(0, q, isn) <= o < Offset(0, q, isn) + |segs[q]|;
      assert HoldsPiece(h, isn, m, q, segs[q]);
    }
    if Covered(m, o) {
      var x :| x in m && x <= o < x + m[x];
      RelativeOfSeq(isn, x);
      var q := SeqOf(isn, x);
      assert q in segs && HoldsPiece(h, isn, m, q, segs[q]);
    }
  }

  lemma {:induction false} MirrorIsSlices(h: Bytes, isn: uint32, m: map<nat, nat>, segs: Segments)
    requires Mirrors(h, isn, m, segs) && |h| <= MAX_BYTES
    ensures SlicesOf(h, 0, segs, isn)
  {
    forall q | q in segs
      ensures RelativeSeq(q, isn) < HALF_SPACE && IsSlice(h, Offset(0, q, isn), segs[q])
    {
      assert HoldsPiece(h, isn, m, q, segs[q]);
    }
  }

  /** From its lowest offset up to `end`, where there is a gap, everything is covered. */
  ghost predicate UpToGap(m: map<nat, nat>, end: nat) {
    && m != map[] && LeastKey(m) < end && !Covered(m, end)
    && forall o :: LeastKey(m) <= o < end ==> Covered(m, o)
  }

  /** The assembled bytes are the message from the lowest piece kept up to the first gap behind it. */
  lemma {:induction false} AssembledUpToGap(h: Bytes, isn: uint32, m: map<nat, nat>, segs: Segments) returns (end: nat)
    requires |h| <= MAX_BYTES && Mirrors(h, isn, m, segs) && m != map[]
    ensures end <= |h| && UpToGap(m, end) && Assembled(segs, isn) == h[LeastKey(m)..end]
  {
    var lo := LeastKey(m);
    LowestMirrors(h, isn, m, segs);
    RelativeOfSeq(isn, lo);
    MirrorIsSlices(h, isn, m, segs);
    AssembledIsLongestRun(h, 0, segs, isn);
    AssembledNonempty(segs, isn);
    var r := Assembled(segs, isn);
    end := lo + |r|;
    assert IsLongestRun(h, 0, segs, isn, lo, r);
    forall o: nat
      ensures Covers(segs, 0, isn, o) <==> Covered(m, o)
    {
      CoversMeansCovered(h, isn, m, segs, o);
    }
  }

  // ----- the report

  lemma {:induction false} PrefixIsPlain(http: HttpReader, h: Bytes, r: Bytes)
    requires IsHelloRecord(h) && RejectsTls(http) && r != [] && r <= h && |r| < |h|
    ensures TcpVerdict(http, r) == PLAIN_TCP
  {
    assert r == h[..|r|];
    StrictPrefixIsPlain(h, |r|);
    CommonRejectsTls(r);
  }

  lemma {:induction false} SomethingKept(h: Bytes, isn: uint32, ps: seq<Piece>)
    requires |h| <= MAX_BYTES && PiecesOf(h, ps) && ps != [] && ps[0].from == 0
    ensures Kept(ps) != map[]
  {
    AfterMirrors(h, isn, ps);
    AfterIsSound(h, isn, ps);
    MirrorNonempty(h, isn, Kept(ps), After(h, isn, ps).value.segments);
  }

  /** In every run that starts with the first byte, what is assembled is what is kept up to its first gap. */
  lemma {:induction false} AssembledIs(h: Bytes, isn: uint32, ps: seq<Piece>) returns (end: nat)
    requires |h| <= MAX_BYTES && PiecesOf(h, ps) && ps != [] && ps[0].from == 0
    ensures end <= |h| && UpToGap(Kept(ps), end)
    ensures var st := After(h, isn, ps).value;
            Assembled(st.segments, st.baseSeq) == h[LeastKey(Kept(ps))..end]
  {
    SomethingKept(h, isn, ps);
    AfterMirrors(h, isn, ps);
    end := AssembledUpToGap(h, isn, Kept(ps), After(h, isn, ps).value.segments);
  }

  lemma {:induction false} MirrorNonempty(h: Bytes, isn: uint32, m: map<nat, nat>, segs: Segments)
    requires Mirrors(h, isn, m, segs) && segs != map[]
    ensures m != map[]
  {
    var q :| q in segs;
    assert HoldsPiece(h, isn, m, q, segs[q]);
  }

  /**
   * Whatever the cuts, the order, the sizes and the retransmissions: as long as the start is kept, the report is
   * the ClientHello's own verdict exactly if what is kept covers the message, and plain TCP otherwise.
   */
  lemma {:induction false} ReportedIff(http: HttpReader, h: Bytes, isn: uint32, ps: seq<Piece>)
    requires IsHelloRecord(h) && Sni(h).proto == Https && RejectsTls(http)
    requires PiecesOf(h, ps) && ps != [] && ps[0].from == 0 && 0 in Kept(ps)
    ensures Report(http, h, isn, ps) == if Whole(h, Kept(ps)) then Sni(h) else PLAIN_TCP
  {
    var end := AssembledIs(h, isn, ps);
    assert LeastKey(Kept(ps)) == 0;
    var r := h[0..end];
    if end == |h| {
      assert r == h;
    } else {
      PrefixIsPlain(http, h, r);
    }
  }

  // ----- while everything that was sent fits

  lemma {:induction false} LongestGrows(ps: seq<Piece>, n: nat)
    requires n <= |ps|
    ensures Longest(ps[..n]).Keys <= Longest(ps).Keys
    ensures forall x <- Longest(ps[..n]) :: Longest(ps[..n])[x] <= Longest(ps)[x]
    ensures Sum(Longest(ps[..n])) <= Sum(Longest(ps))
  {
    if n < |ps| {
      var init := ps[..|ps| - 1];
      LongestGrows(init, n);
      assert init[..n] == ps[..n];
      SumPart(Longest(ps[..n]), Longest(ps));
    } else {
      assert ps[..n] == ps;
    }
  }

  /** Then everything is kept. */
  lemma {:induction false} FittingIsKept(ps: seq<Piece>)
    requires Fits(ps)
    ensures Kept(ps) == Longest(ps)
  {
    if ps != [] {
      LongestGrows(ps, |ps| - 1);
      FittingIsKept(ps[..|ps| - 1]);
    }
  }

  lemma {:induction false} LongestWasSent(ps: seq<Piece>, x: nat)
    requires x in Longest(ps)
    ensures exists p :: p in ps && p.from == x && p.len == Longest(ps)[x]
  {
    var n := |ps| - 1;
    if ps[n].from == x && Longest(ps)[x] == ps[n].len {
      assert ps[n] in ps;
    } else {
      LongestWasSent(ps[..n], x);
      var p :| p in ps[..n] && p.from == x && p.len == Longest(ps[..n])[x];
      assert p in ps;
    }
  }

  lemma {:induction false} SentIsHeld(ps: seq<Piece>, p: Piece)
    requires p in ps
    ensures p.from in Longest(ps) && p.len <= Longest(ps)[p.from]
  {
    var n := |ps| - 1;
    if p != ps[n] {
      assert p in ps[..n];
      SentIsHeld(ps[..n], p);
    }
  }

  lemma {:induction false} SentIffCovered(ps: seq<Piece>, o: nat)
    ensures Sent(ps, o) <==> Covered(Longest(ps), o)
  {
    if Sent(ps, o) {
      var p :| p in ps && p.from <= o < p.from + p.len;
      SentIsHeld(ps, p);
      assert p.from in Longest(ps);
    }
    if Covered(Longest(ps), o) {
      var x :| x in Longest(ps) && x <= o < x + Longest(ps)[x];
      LongestWasSent(ps, x);
    }
  }

  /** While everything fits, the start is kept, and what is kept covers the message exactly if all was sent. */
  lemma {:induction false} FittingKeepsAll(h: Bytes, ps: seq<Piece>)
    requires Fits(ps) && ps != [] && ps[0].from == 0
    ensures 0 in Kept(ps) && (Whole(h, Kept(ps)) <==> Complete(h, ps))
  {
    FittingIsKept(ps);
    SentIsHeld(ps, ps[0]);
    forall o: nat
      ensures Sent(ps, o) <==> Covered(Longest(ps), o)
    {
      SentIffCovered(ps, o);
    }
  }

  // ----- a message cut once and retransmitted as it was cut always fits

  function Total(lens: seq<nat>): nat {
    if lens == [] then 0 else Total(lens[..|lens| - 1]) + lens[|lens| - 1]
  }

  /** `p` is the piece number `j` of a message cut into pieces of the given lengths. */
  ghost predicate IsCutPiece(lens: seq<nat>, j: nat, p: Piece) {
    j < |lens| && p.from == Total(lens[..j]) && p.len == lens[j]
  }

  /** All pieces are pieces of the cut, in whatever order and number. */
  ghost predicate FromCut(lens: seq<nat>, ps: seq<Piece>) {
    forall p <- ps :: exists j :: IsCutPiece(lens, j, p)
  }

  ghost function CutSizes(lens: seq<nat>): map<nat, nat> {
    if lens == [] then map[]
    else CutSizes(lens[..|lens| - 1])[Total(lens[..|lens| - 1]) := lens[|lens| - 1]]
  }

  /** The pieces of a cut start at different offsets, and their sizes add up to the message. */
  lemma {:induction false} CutSizesSum(lens: seq<nat>)
    requires forall n <- lens :: n > 0
    ensures Sum(CutSizes(lens)) == Total(lens)
    ensures forall x <- CutSizes(lens) :: x < Total(lens)
  {
    if lens != [] {
      var init, last := lens[..|lens| - 1], lens[|lens| - 1];
      assert last in lens && forall n <- init :: n in lens;
      CutSizesSum(init);
      SumPut(CutSizes(init), Total(init), last);
      assert CutSizes(init) - {Total(init)} == CutSizes(init);
    }
  }

  lemma {:induction false} CutPieceSize(lens: seq<nat>, j: nat, p: Piece)
    requires (forall n <- lens :: n > 0) && IsCutPiece(lens, j, p)
    ensures p.from in CutSizes(lens) && CutSizes(lens)[p.from] == p.len > 0 && p.from + p.len <= Total(lens)
  {
    var init := lens[..|lens| - 1];
    assert lens[j] in lens && lens[|lens| - 1] in lens;
    if j < |init| {
      assert init[..j] == lens[..j] && forall n <- init :: n in lens;
      CutPieceSize(init, j, p);
      CutSizesSum(init);
    }
  }

  lemma {:induction false} CutFits(lens: seq<nat>, ps: seq<Piece>)
    requires (forall n <- lens :: n > 0) && FromCut(lens, ps)
    ensures Longest(ps).Keys <= CutSizes(lens).Keys
    ensures forall x <- Longest(ps) :: Longest(ps)[x] <= CutSizes(lens)[x]
  {
    if ps != [] {
      var n := |ps| - 1;
      assert ps[n] in ps && forall p <- ps[..n] :: p in ps;
      CutFits(lens, ps[..n]);
      var j :| IsCutPiece(lens, j, ps[n]);
      CutPieceSize(lens, j, ps[n]);
    }
  }

  lemma {:induction false} CutPieces(h: Bytes, lens: seq<nat>, ps: seq<Piece>)
    requires (forall n <- lens :: n > 0) && FromCut(lens, ps) && Total(lens) == |h| <= MAX_BYTES
    ensures PiecesOf(h, ps) && Fits(ps)
  {
    forall p | p in ps
      ensures p.len > 0 && p.from + p.len <= |h|
    {
      var j :| IsCutPiece(lens, j, p);
      CutPieceSize(lens, j, p);
    }
    CutFits(lens, ps);
    SumPart(Longest(ps), CutSizes(lens));
    CutSizesSum(lens);
  }

  lemma {:induction false} RecordIsHello(hello: ClientHello)
    requires Encodable(hello)
    ensures HelloArrived(Record(hello)) && RecordSize(Record(hello)) == |Record(hello)|
    ensures Sni(Record(hello)) == Verdict(Https, HostName(hello))
  {
    assert Record(hello) + [] == Record(hello);
    RecordArrives(hello, []);
    SniInvertsBuilder(hello, []);
  }

  // ----- pieces in any order, over any stretch of less than half the sequence space

  function LowestFrom(ps: seq<Piece>): nat
    requires ps != []
  {
    if |ps| == 1 then ps[0].from else Lower(LowestFrom(ps[..|ps| - 1]), ps[|ps| - 1].from)
  }

  lemma {:induction false} FirstFollows(s: Bytes, isn: uint32, p: Piece)
    requires 0 < p.len <= MAX_BYTES && p.from + p.len <= |s|
    ensures var st := Received(None, ArrivalOf(s, isn, p), p.at);
            && Follows(s, isn, p.from, st)
            && forall q <- st.segments :: Offset(p.from, q, st.baseSeq) == p.from
  {
    var a := ArrivalOf(s, isn, p);
    assert RelativeSeq(a.seqNo, a.seqNo) == 0;
    TrimmedIsPart(map[a.seqNo := a.data], a.seqNo);
  }

  ghost predicate Within(b: nat, hi: nat, st: Stream) {
    b <= hi && forall q <- st.segments :: Offset(b, q, st.baseSeq) <= hi
  }

  /** Whatever the order of arrival, the base is the number of the lowest byte ever seen. */
  lemma {:induction false} AnyOrderFollows(s: Bytes, isn: uint32, ps: seq<Piece>, hi: nat)
    requires PiecesOf(s, ps) && ps != [] && forall p <- ps :: p.len <= MAX_BYTES && p.from <= hi
    requires hi - LowestFrom(ps) < HALF_SPACE
    ensures Follows(s, isn, LowestFrom(ps), After(s, isn, ps).value)
    ensures Within(LowestFrom(ps), hi, After(s, isn, ps).value)
  {
    var n := |ps| - 1;
    var init, p := ps[..n], ps[n];
    assert p in ps && forall x <- init :: x in ps;
    if n == 0 {
      assert init == [];
      FirstFollows(s, isn, p);
    } else {
      AnyOrderFollows(s, isn, init, hi);
      ReceivedFollows(s, isn, LowestFrom(init), hi, p.from, After(s, isn, init).value, ArrivalOf(s, isn, p), p.at);
    }
  }

  /** And what is assembled is the longest gap-free run of the stream from the lowest byte kept. */
  lemma {:induction false} AnyOrderAssembles(s: Bytes, isn: uint32, ps: seq<Piece>, hi: nat)
    requires PiecesOf(s, ps) && ps != [] && forall p <- ps :: p.len <= MAX_BYTES && p.from <= hi
    requires hi - LowestFrom(ps) < HALF_SPACE
    ensures var st, b := After(s, isn, ps).value, LowestFrom(ps);
            && st.baseSeq == SeqOf(isn, b) && st.segments != map[]
            && IsLongestRun(s, b, st.segments, st.baseSeq, Offset(b, Lowest(st.segments, st.baseSeq), st.baseSeq),
                            Assembled(st.segments, st.baseSeq))
  {
    AnyOrderFollows(s, isn, ps, hi);
    AfterIsSound(s, isn, ps);
    var st := After(s, isn, ps).value;
    AssembledIsLongestRun(s, LowestFrom(ps), st.segments, st.baseSeq);
  }

  lemma {:induction false} AfterIsSound(s: Bytes, isn: uint32, ps: seq<Piece>)
    requires PiecesOf(s, ps) && ps != [] && forall p <- ps :: p.len <= MAX_BYTES
    ensures Sound(After(s, isn, ps).value)
  {
    var n := |ps| - 1;
    var init, p := ps[..n], ps[n];
    assert p in ps;
    if init == [] {
      ReceivedIsSound(None, ArrivalOf(s, isn, p), p.at);
    } else {
      assert forall x <- init :: x in ps;
      AfterIsSound(s, isn, init);
      ReceivedIsSound(After(s, isn, init), ArrivalOf(s, isn, p), p.at);
    }
  }

  // ----- what does not fit

  lemma {:induction false} FittedDropsLeast(m: map<nat, nat>)
    requires m != map[] && Sum(m) > MAX_BYTES
    ensures LeastKey(m) !in Fitted(m)
  {
    FittedIsPart(m - {LeastKey(m)});
  }

  lemma {:induction false} FittedIsPart(m: map<nat, nat>)
    ensures Fitted(m).Keys <= m.Keys
    decreases |m|
  {
    if Sum(m) > MAX_BYTES && m != map[] {
      FittedIsPart(m - {LeastKey(m)});
    }
  }

  lemma {:induction false} LeastIsZero(m: map<nat, nat>)
    requires 0 in m
    ensures LeastKey(m) == 0
  {
  }

  /** When what was sent first exceeds the limit, the start is what goes. */
  lemma {:induction false} OverflowDropsStart(ps: seq<Piece>)
    requires |ps| >= 2 && ps[0].from == 0 && Fits(ps[..|ps| - 1])
    ensures 0 in Kept(ps) <==> Fits(ps)
  {
    var init := ps[..|ps| - 1];
    FittingIsKept(init);
    SentIsHeld(init, init[0]);
    if Fits(ps) {
      FittingKeepsAll([], ps);
    } else {
      var all := Longest(ps);
      assert Kept(ps) == Fitted(all) && 0 in all;
      FittedDropsLeast(all);
      LeastIsZero(all);
    }
  }

  /** The numbers of a run whose second piece was cut differently. */
  lemma {:induction false} RecutNumbers()
    ensures var p, q, r, again := Piece(0, 3000, 0), Piece(1000, 3000, 1), Piece(4000, 96, 2), Piece(0, 1000, 3);
            && Kept([p, q, r]) == map[1000 := 3000, 4000 := 96]
            && Kept([p, q, r, again]) == map[1000 := 3000, 4000 := 96, 0 := 1000]
  {
    var p, q, r, again := Piece(0, 3000, 0), Piece(1000, 3000, 1), Piece(4000, 96, 2), Piece(0, 1000, 3);
    assert [p][..0] == [] && [p, q][..1] == [p] && [p, q, r][..2] == [p, q] && [p, q, r, again][..3] == [p, q, r];
    SumOfTwo(map[], 0, 3000);
    SumOfTwo(map[0 := 3000], 1000, 3000);
    var both := map[0 := 3000, 1000 := 3000];
    assert Kept([p]) == map[0 := 3000];
    assert Longer(map[0 := 3000], q) == both && Sum(both) == 6000;
    assert LeastKey(both) == 0 && both - {0} == map[1000 := 3000];
    SumOfTwo(map[], 1000, 3000);
    assert Kept([p, q]) == map[1000 := 3000];
    SumOfTwo(map[1000 := 3000], 4000, 96);
    SumOfTwo(map[1000 := 3000, 4000 := 96], 0, 1000);
  }

  lemma {:induction false} SumOfTwo(m: map<nat, nat>, x: nat, n: nat)
    requires x !in m
    ensures Sum(m[x := n]) == n + Sum(m)
  {
    SumPut(m, x, n);
    assert m - {x} == m;
  }

  const RECUT := [Piece(0, 3000, 0), Piece(1000, 3000, 1), Piece(4000, 96, 2)]
  const AGAIN := Piece(0, 1000, 3)

  /** Every byte of a message of 4096 has been sent, but the start has been dropped. */
  lemma {:induction false} RecutLosesStart(h: Bytes, isn: uint32)
    requires |h| == MAX_BYTES
    ensures PiecesOf(h, RECUT) && Complete(h, RECUT) && 0 !in Kept(RECUT)
    ensures isn !in After(h, isn, RECUT).value.segments
  {
    var p, q, r := Piece(0, 3000, 0), Piece(1000, 3000, 1), Piece(4000, 96, 2);
    assert RECUT == [p, q, r] && p in RECUT && q in RECUT && r in RECUT;
    RecutNumbers();
    StartHeldIff(h, isn, RECUT);
  }

  lemma {:induction false} RecutWhole(h: Bytes)
    requires |h| == MAX_BYTES
    ensures 0 in Kept(RECUT + [AGAIN]) && Whole(h, Kept(RECUT + [AGAIN]))
  {
    assert RECUT + [AGAIN] == [Piece(0, 3000, 0), Piece(1000, 3000, 1), Piece(4000, 96, 2), Piece(0, 1000, 3)];
    RecutNumbers();
    var kept := map[1000 := 3000, 4000 := 96, 0 := 1000];
    forall o | 0 <= o < |h|
      ensures Covered(kept, o)
    {
      var x := if o < 1000 then 0 else if o < 4000 then 1000 else 4000;
      assert x in kept && x <= o < x + kept[x];
    }
  }

  /** When the start is sent once more, now that there is room for it, the message is whole and is reported. */
  lemma {:induction false} StartSentAgainReports(http: HttpReader, h: Bytes, isn: uint32)
    requires IsHelloRecord(h) && |h| == MAX_BYTES && Sni(h).proto == Https && RejectsTls(http)
    ensures PiecesOf(h, RECUT + [AGAIN]) && Report(http, h, isn, RECUT + [AGAIN]) == Sni(h)
  {
    RecutWhole(h);
    ReportedIff(http, h, isn, RECUT + [AGAIN]);
  }
}
