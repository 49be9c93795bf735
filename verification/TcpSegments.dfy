/**
 * The segments held for one direction of a TCP connection, keyed by 32-bit sequence
 * numbers that wrap around (section 3.4 of RFC 9293), and their assembly into the
 * longest gap-free run.
 */
module TcpSegments {
  import opened Wire
  import opened MapSum

  const MAX_BYTES: nat := 4 * 1024

  const HALF_SPACE: nat := 0x8000_0000

  type Segments = map<uint32, Bytes>

  datatype Segment = Segment(seqNo: uint32, data: Bytes)

  /** The distance from `base` up to `seqNo`, modulo 2^32. */
  function RelativeSeq(seqNo: uint32, base: uint32): (r: uint32)
    ensures r == if base <= seqNo then seqNo - base else 0x1_0000_0000 - (base - seqNo)
  {
    (seqNo - base) % 0x1_0000_0000
  }

  lemma {:induction false} RelativeSeqInjective(p: uint32, q: uint32, base: uint32)
    requires RelativeSeq(p, base) == RelativeSeq(q, base)
    ensures p == q
  {
  }

  // ----- byte counts

  function Sizes(segs: Segments): map<uint32, nat> {
    map q | q in segs :: |segs[q]|
  }

  ghost function Size(segs: Segments): nat {
    Sum(Sizes(segs))
  }

  lemma {:induction false} SizeRemove(segs: Segments, q: uint32)
    requires q in segs
    ensures Size(segs) == |segs[q]| + Size(segs - {q})
  {
    SumRemove(Sizes(segs), q);
    assert Sizes(segs) - {q} == Sizes(segs - {q});
  }

  lemma {:induction false} SizePut(segs: Segments, q: uint32, data: Bytes)
    ensures Size(segs[q := data]) == |data| + Size(segs - {q})
    ensures q !in segs ==> Size(segs[q := data]) == |data| + Size(segs)
    ensures q in segs ==> Size(segs[q := data]) == |data| - |segs[q]| + Size(segs)
  {
    SumPut(Sizes(segs), q, |data|);
    assert Sizes(segs[q := data]) == Sizes(segs)[q := |data|];
    assert Sizes(segs) - {q} == Sizes(segs - {q});
    if q in segs {
      SizeRemove(segs, q);
    } else {
      assert segs - {q} == segs;
    }
  }

  // ----- the segment that comes first

  ghost predicate IsLowest(segs: Segments, base: uint32, q: uint32) {
    q in segs && forall p <- segs :: RelativeSeq(q, base) <= RelativeSeq(p, base)
  }

  lemma {:induction false} LowestExists(segs: Segments, base: uint32)
    requires segs != map[]
    ensures exists q :: IsLowest(segs, base, q)
    decreases |segs|
  {
    var p :| p in segs;
    if segs - {p} == map[] {
      forall r | r in segs
        ensures r == p
      {
        assert r != p ==> r in segs - {p};
      }
      assert IsLowest(segs, base, p);
    } else {
      LowestExists(segs - {p}, base);
      var q :| IsLowest(segs - {p}, base, q);
      var r := if RelativeSeq(p, base) <= RelativeSeq(q, base) then p else q;
      assert IsLowest(segs, base, r);
    }
  }

  ghost function Lowest(segs: Segments, base: uint32): (q: uint32)
    requires segs != map[]
    ensures IsLowest(segs, base, q)
  {
    LowestExists(segs, base);
    var q :| IsLowest(segs, base, q);
    q
  }

  lemma {:induction false} LowestUnique(segs: Segments, base: uint32, q: uint32)
    requires IsLowest(segs, base, q)
    ensures q == Lowest(segs, base)
  {
  }

  method FindLowest(segs: Segments, base: uint32) returns (q: uint32)
    requires segs != map[]
    ensures q == Lowest(segs, base)
  {
    var oldest, found := 0, false;
    var rest := segs.Keys;
    while rest != {}
      invariant rest <= segs.Keys
      invariant !found ==> rest == segs.Keys
      invariant found ==> oldest in segs
      invariant found ==> forall p <- segs :: p !in rest ==> RelativeSeq(oldest, base) <= RelativeSeq(p, base)
    {
      var p :| p in rest;
      if !found || RelativeSeq(p, base) < RelativeSeq(oldest, base) {
        oldest, found := p, true;
      }
      rest := rest - {p};
    }
    q := oldest;
    LowestUnique(segs, base, q);
  }

  // ----- assembly

  /** The segments in the order of their distance from `base`. */
  ghost function Ordered(segs: Segments, base: uint32): seq<Segment>
    decreases |segs|
  {
    if segs == map[] then []
    else
      var q := Lowest(segs, base);
      [Segment(q, segs[q])] + Ordered(segs - {q}, base)
  }

  /** Appends what ordered[i..] adds beyond `end`, up to the first gap. */
  ghost function Merge(ordered: seq<Segment>, i: nat, result: Bytes, end: uint32, base: uint32): Bytes
    requires i <= |ordered|
    decreases |ordered| - i
  {
    if i == |ordered| then result
    else
      var s, rel := ordered[i], RelativeSeq(ordered[i].seqNo, base);
      if rel > end then result
      else if end - rel < |s.data| then
        Merge(ordered, i + 1, result + s.data[end - rel..],
              (end + (|s.data| - (end - rel))) % 0x1_0000_0000, base)
      else Merge(ordered, i + 1, result, end, base)
  }

  ghost function Assembled(segs: Segments, base: uint32): Bytes {
    var ordered := Ordered(segs, base);
    if ordered == [] then []
    else
      var s := ordered[0];
      Merge(ordered, 1, s.data, (RelativeSeq(s.seqNo, base) + |s.data|) % 0x1_0000_0000, base)
  }

  lemma {:induction false} MergeGrows(ordered: seq<Segment>, i: nat, result: Bytes, end: uint32, base: uint32)
    requires i <= |ordered|
    ensures |result| <= |Merge(ordered, i, result, end, base)|
    decreases |ordered| - i
  {
    if i < |ordered| {
      var s, rel := ordered[i], RelativeSeq(ordered[i].seqNo, base);
      if rel <= end {
        if end - rel < |s.data| {
          MergeGrows(ordered, i + 1, result + s.data[end - rel..],
                     (end + (|s.data| - (end - rel))) % 0x1_0000_0000, base);
        } else {
          MergeGrows(ordered, i + 1, result, end, base);
        }
      }
    }
  }

  lemma {:induction false} AssembledNonempty(segs: Segments, base: uint32)
    requires segs != map[] && forall q <- segs :: segs[q] != []
    ensures Assembled(segs, base) != []
  {
    var ordered, q := Ordered(segs, base), Lowest(segs, base);
    assert ordered[0] == Segment(q, segs[q]);
    MergeGrows(ordered, 1, segs[q], (RelativeSeq(q, base) + |segs[q]|) % 0x1_0000_0000, base);
  }

  /** Stands for the collecting loop and the library sort. */
  method SortSegments(segs: Segments, base: uint32) returns (ordered: seq<Segment>)
    ensures ordered == Ordered(segs, base)
  {
    ordered := [];
    var rest := segs;
    while rest != map[]
      invariant ordered + Ordered(rest, base) == Ordered(segs, base)
      decreases |rest|
    {
      var q := FindLowest(rest, base);
      ghost var before := ordered;
      ordered := ordered + [Segment(q, rest[q])];
      assert before + Ordered(rest, base) == ordered + Ordered(rest - {q}, base);
      rest := rest - {q};
    }
  }

  method AssembleTcpStream(segs: Segments, base: uint32) returns (result: Bytes)
    ensures result == Assembled(segs, base)
  {
    var ordered := SortSegments(segs, base);
    if |ordered| == 0 {
      return [];
    }
    result := ordered[0].data;
    var end: uint32 := (RelativeSeq(ordered[0].seqNo, base) + |result|) % 0x1_0000_0000;
    var i := 1;
    while i < |ordered|
      invariant 1 <= i <= |ordered|
      invariant Merge(ordered, i, result, end, base) == Assembled(segs, base)
    {
      var segment := ordered[i];
      var segmentSeq := RelativeSeq(segment.seqNo, base);
      if segmentSeq > end {
        break;
      }
      var overlap: nat := end - segmentSeq;
      if overlap < |segment.data| {
        result := result + segment.data[overlap..];
        end := (end + (|segment.data| - overlap)) % 0x1_0000_0000;
      }
      i := i + 1;
    }
  }

  // ----- what assembly means for slices of one stream

  /** Where the byte with sequence number `seqNo` lies in a stream whose byte `b` has number `base`. */
  function Offset(b: nat, seqNo: uint32, base: uint32): nat {
    b + RelativeSeq(seqNo, base)
  }

  /** `data` is what the stream `s` holds from offset `o` on. */
  ghost predicate IsSlice(s: Bytes, o: nat, data: Bytes) {
    0 < |data| <= MAX_BYTES && o + |data| <= |s| && data == s[o..o + |data|]
  }

  /** Every segment is a slice of `s`, less than half the sequence space above `base`. */
  ghost predicate SlicesOf(s: Bytes, b: nat, segs: Segments, base: uint32) {
    forall q <- segs ::
      RelativeSeq(q, base) < HALF_SPACE && IsSlice(s, Offset(b, q, base), segs[q])
  }

  /** Offset `o` of the stream lies in one of the segments. */
  ghost predicate Covers(segs: Segments, b: nat, base: uint32, o: nat) {
    exists q :: q in segs && Offset(b, q, base) <= o < Offset(b, q, base) + |segs[q]|
  }

  lemma {:induction false} OrderedFromSegments(segs: Segments, base: uint32)
    ensures forall x <- Ordered(segs, base) :: x.seqNo in segs && x.data == segs[x.seqNo]
    decreases |segs|
  {
    if segs != map[] {
      OrderedFromSegments(segs - {Lowest(segs, base)}, base);
    }
  }

  lemma {:induction false} OrderedHasAll(segs: Segments, base: uint32, p: uint32)
    requires p in segs
    ensures Segment(p, segs[p]) in Ordered(segs, base)
    decreases |segs|
  {
    var q := Lowest(segs, base);
    if p != q {
      OrderedHasAll(segs - {q}, base, p);
      assert Segment(p, segs[p]) in Ordered(segs - {q}, base);
    }
  }

  lemma {:induction false} OrderedIsSorted(segs: Segments, base: uint32, i: nat, j: nat)
    requires i <= j < |Ordered(segs, base)|
    ensures RelativeSeq(Ordered(segs, base)[i].seqNo, base) <= RelativeSeq(Ordered(segs, base)[j].seqNo, base)
    decreases |segs|
  {
    var q := Lowest(segs, base);
    var tail := Ordered(segs - {q}, base);
    if i == 0 {
      OrderedFromSegments(segs, base);
      assert Ordered(segs, base)[j] in Ordered(segs, base);
    } else {
      OrderedIsSorted(segs - {q}, base, i - 1, j - 1);
    }
  }

  /** `ordered` holds just the segments of `segs`, sorted by their distance from `base`. */
  ghost predicate Enumerates(ordered: seq<Segment>, segs: Segments, base: uint32) {
    && (forall x <- ordered :: x.seqNo in segs && x.data == segs[x.seqNo])
    && (forall p <- segs :: Segment(p, segs[p]) in ordered)
    && (forall i, j :: 0 <= i <= j < |ordered| ==>
          RelativeSeq(ordered[i].seqNo, base) <= RelativeSeq(ordered[j].seqNo, base))
  }

  lemma {:induction false} OrderedEnumerates(segs: Segments, base: uint32)
    ensures Enumerates(Ordered(segs, base), segs, base)
  {
    OrderedFromSegments(segs, base);
    forall p | p in segs
      ensures Segment(p, segs[p]) in Ordered(segs, base)
    {
      OrderedHasAll(segs, base, p);
    }
    forall i, j | 0 <= i <= j < |Ordered(segs, base)|
      ensures RelativeSeq(Ordered(segs, base)[i].seqNo, base) <= RelativeSeq(Ordered(segs, base)[j].seqNo, base)
    {
      OrderedIsSorted(segs, base, i, j);
    }
  }

  /** `r` is what the stream holds from `lo` on, and all of it is held in the segments. */
  ghost predicate IsHeldRun(s: Bytes, b: nat, segs: Segments, base: uint32, lo: nat, r: Bytes) {
    && lo + |r| <= |s| && r == s[lo..lo + |r|]
    && forall o :: lo <= o < lo + |r| ==> Covers(segs, b, base, o)
  }

  /** The run can be prolonged by what a segment adds beyond it. */
  lemma {:induction false} RunProlonged(s: Bytes, b: nat, segs: Segments, base: uint32, lo: nat, r: Bytes, q: uint32,
                                        overlap: nat)
    requires IsHeldRun(s, b, segs, base, lo, r)
    requires q in segs && IsSlice(s, Offset(b, q, base), segs[q])
    requires Offset(b, q, base) + overlap == lo + |r| && overlap <= |segs[q]|
    ensures IsHeldRun(s, b, segs, base, lo, r + segs[q][overlap..])
  {
    var o, data := Offset(b, q, base), segs[q];
    SliceOfSlice(s, o, o + |data|, overlap, |data|);
    assert data[overlap..] == s[lo + |r|..o + |data|];
    assert r + data[overlap..] == s[lo..o + |data|];
    forall x | lo <= x < o + |data|
      ensures Covers(segs, b, base, x)
    {
      assert x >= lo + |r| ==> Offset(b, q, base) <= x < Offset(b, q, base) + |segs[q]|;
    }
  }

  /** No segment among the first `i` reaches beyond `end`. */
  ghost predicate NoneBeyond(ordered: seq<Segment>, i: nat, base: uint32, end: nat)
    requires i <= |ordered|
  {
    forall j :: 0 <= j < i ==> RelativeSeq(ordered[j].seqNo, base) + |ordered[j].data| <= end
  }

  lemma {:induction false} NothingHeldBeyond(b: nat, segs: Segments, base: uint32, ordered: seq<Segment>, i: nat,
                                             end: nat)
    requires Enumerates(ordered, segs, base)
    requires i <= |ordered| && NoneBeyond(ordered, i, base, end)
    requires i < |ordered| ==> RelativeSeq(ordered[i].seqNo, base) > end
    ensures !Covers(segs, b, base, b + end)
  {
  }

  /** A held run that cannot be prolonged. */
  ghost predicate IsLongestRun(s: Bytes, b: nat, segs: Segments, base: uint32, lo: nat, r: Bytes) {
    IsHeldRun(s, b, segs, base, lo, r) && !Covers(segs, b, base, lo + |r|)
  }

  /** One round of the merge loop that appends, when `end` does not wrap around. */
  lemma {:induction false} MergeAppends(ordered: seq<Segment>, i: nat, result: Bytes, end: uint32, base: uint32,
                                        overlap: nat, end': uint32)
    requires i < |ordered| && overlap < |ordered[i].data|
    requires RelativeSeq(ordered[i].seqNo, base) + overlap == end && end' == end + |ordered[i].data| - overlap
    ensures Merge(ordered, i, result, end, base)
         == Merge(ordered, i + 1, result + ordered[i].data[overlap..], end', base)
  {
    var data, rel := ordered[i].data, RelativeSeq(ordered[i].seqNo, base);
    assert end - rel == overlap && end + (|data| - overlap) == end';
    NoWrap(end');
  }

  /** One round that appends nothing. */
  lemma {:induction false} MergeSkips(ordered: seq<Segment>, i: nat, result: Bytes, end: uint32, base: uint32)
    requires i < |ordered| && RelativeSeq(ordered[i].seqNo, base) <= end
    requires RelativeSeq(ordered[i].seqNo, base) + |ordered[i].data| <= end
    ensures Merge(ordered, i, result, end, base) == Merge(ordered, i + 1, result, end, base)
  {
  }

  lemma {:induction false} OneMoreWithin(ordered: seq<Segment>, i: nat, base: uint32, end: nat, end': nat)
    requires i < |ordered| && NoneBeyond(ordered, i, base, end) && end <= end'
    requires RelativeSeq(ordered[i].seqNo, base) + |ordered[i].data| <= end'
    ensures NoneBeyond(ordered, i + 1, base, end')
  {
  }

  lemma {:induction false} NoWrap(n: uint32)
    ensures n % 0x1_0000_0000 == n
  {
  }

  /** The merge loop: the run ends at `b + end`, which no merged segment reaches beyond. */
  lemma {:induction false} MergeIsLongestRun(s: Bytes, b: nat, segs: Segments, base: uint32, ordered: seq<Segment>,
                                             i: nat, lo: nat, result: Bytes, end: uint32)
    requires SlicesOf(s, b, segs, base) && Enumerates(ordered, segs, base)
    requires i <= |ordered| && NoneBeyond(ordered, i, base, end)
    requires IsHeldRun(s, b, segs, base, lo, result) && lo + |result| == b + end
    requires end < HALF_SPACE + MAX_BYTES
    ensures IsLongestRun(s, b, segs, base, lo, Merge(ordered, i, result, end, base))
    decreases |ordered| - i
  {
    if i == |ordered| || RelativeSeq(ordered[i].seqNo, base) > end {
      NothingHeldBeyond(b, segs, base, ordered, i, end);
    } else {
      var x := ordered[i];
      assert x in ordered;
      var overlap := end - RelativeSeq(x.seqNo, base);
      if overlap < |x.data| {
        var result', end' := result + x.data[overlap..], end + |x.data| - overlap;
        RunProlonged(s, b, segs, base, lo, result, x.seqNo, overlap);
        MergeAppends(ordered, i, result, end, base, overlap, end');
        OneMoreWithin(ordered, i, base, end, end');
        MergeIsLongestRun(s, b, segs, base, ordered, i + 1, lo, result', end');
      } else {
        MergeSkips(ordered, i, result, end, base);
        OneMoreWithin(ordered, i, base, end, end);
        MergeIsLongestRun(s, b, segs, base, ordered, i + 1, lo, result, end);
      }
    }
  }

  lemma {:induction false} FirstRun(s: Bytes, b: nat, segs: Segments, base: uint32, q: uint32)
    requires q in segs && IsSlice(s, Offset(b, q, base), segs[q])
    ensures IsHeldRun(s, b, segs, base, Offset(b, q, base), segs[q])
  {
  }

  lemma {:induction false} AssembledStartsLowest(segs: Segments, base: uint32, q: uint32, end: uint32)
    requires segs != map[] && q == Lowest(segs, base) && end == RelativeSeq(q, base) + |segs[q]|
    ensures |Ordered(segs, base)| > 0 && Ordered(segs, base)[0] == Segment(q, segs[q])
    ensures Assembled(segs, base) == Merge(Ordered(segs, base), 1, segs[q], end, base)
  {
    assert (RelativeSeq(q, base) + |segs[q]|) % 0x1_0000_0000 == end;
  }

  lemma {:induction false} MergeFromFirst(s: Bytes, b: nat, segs: Segments, base: uint32, ordered: seq<Segment>,
                                          end: uint32)
    requires SlicesOf(s, b, segs, base) && Enumerates(ordered, segs, base)
    requires |ordered| > 0 && end == RelativeSeq(ordered[0].seqNo, base) + |ordered[0].data|
    ensures var x := ordered[0];
            IsLongestRun(s, b, segs, base, Offset(b, x.seqNo, base), Merge(ordered, 1, x.data, end, base))
  {
    var x := ordered[0];
    assert x in ordered;
    FirstRun(s, b, segs, base, x.seqNo);
    MergeIsLongestRun(s, b, segs, base, ordered, 1, Offset(b, x.seqNo, base), x.data, end);
  }

  /**
   * The assembled bytes are the longest gap-free run of the stream from the lowest offset held:
   * every offset of the run is held, and the next one is not.
   */
  lemma {:induction false} AssembledIsLongestRun(s: Bytes, b: nat, segs: Segments, base: uint32)
    requires SlicesOf(s, b, segs, base) && segs != map[]
    ensures IsLongestRun(s, b, segs, base, Offset(b, Lowest(segs, base), base), Assembled(segs, base))
  {
    var q := Lowest(segs, base);
    var end: uint32 := RelativeSeq(q, base) + |segs[q]|;
    OrderedEnumerates(segs, base);
    AssembledStartsLowest(segs, base, q, end);
    MergeFromFirst(s, b, segs, base, Ordered(segs, base), end);
  }
}
