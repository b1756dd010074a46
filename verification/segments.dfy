/**
 * `Curves.get_segments`: every segment of every curve becomes one or two
 * control polygons ("entries") for a path-drawing backend. A corner gives the
 * two line entries [start, c] and [c, end]; a smooth segment gives the single
 * cubic entry [start, c1, c2, end]. The start is chained from segment to
 * segment within a curve.
 */
module Segments {
  import opened TracedPath

  /** A rendered control polygon; its kind is told by its length (2 or 4 points). */
  type Entry = seq<Point>

  predicate WellFormed(e: Entry) {
    |e| == 2 || |e| == 4
  }

  function Last(e: Entry): Point
    requires e != []
  {
    e[|e| - 1]
  }

  /**
   * Entries that link up: the first starts at `start` and each one starts
   * where the one before it ends.
   */
  predicate Chained(start: Point, es: seq<Entry>) {
    && (forall k :: 0 <= k < |es| ==> WellFormed(es[k]))
    && (es != [] ==> es[0][0] == start)
    && (forall k :: 0 <= k < |es| - 1 ==> Last(es[k]) == es[k + 1][0])
  }

  /** The entries of one segment that starts at `start`. */
  function SegmentEntries(start: Point, s: Segment): (r: seq<Entry>)
    ensures |r| == Weight(s)
    ensures forall k :: 0 <= k < |r| ==> WellFormed(r[k])
  {
    match s
    case Corner(c, end) => [[start, c], [c, end]]
    case Smooth(c1, c2, end) => [[start, c1, c2, end]]
  }

  /** The entries of a curve's segments, the first segment starting at `start`. */
  function CurveEntries(start: Point, segs: seq<Segment>): (r: seq<Entry>)
    ensures |r| == SegmentsWeight(segs)
    decreases |segs|
  {
    if segs == [] then []
    else
      var n := |segs| - 1;
      CurveEntries(start, segs[..n]) + SegmentEntries(StartOf(start, segs, n), segs[n])
  }

  /** `get_segments`: the entries of every curve, in curve order. */
  function PathEntries(path: Path): (r: seq<Entry>)
    ensures |r| == PathWeight(path)
    decreases |path|
  {
    if path == [] then []
    else
      var n := |path| - 1;
      PathEntries(path[..n]) + CurveEntries(path[n].start, path[n].segments)
  }

  /**
   * Chaining within a curve: the first entry begins at the curve's start, each
   * entry begins where the previous one ends, and the last one ends at the
   * last segment's end point.
   */
  lemma {:induction false} CurveEntriesChained(start: Point, segs: seq<Segment>)
    ensures Chained(start, CurveEntries(start, segs))
    ensures segs != [] ==> Last(CurveEntries(start, segs)[SegmentsWeight(segs) - 1]) == segs[|segs| - 1].end
    decreases |segs|
  {
    if segs != [] {
      var n := |segs| - 1;
      var prefix := CurveEntries(start, segs[..n]);
      var tail := SegmentEntries(StartOf(start, segs, n), segs[n]);
      CurveEntriesChained(start, segs[..n]);
      ChainedAppend(start, prefix, tail);
    }
  }

  /** Two chains join into one when the second starts where the first ends. */
  lemma ChainedAppend(start: Point, a: seq<Entry>, b: seq<Entry>)
    requires Chained(start, a)
    requires Chained(if a == [] then start else Last(a[|a| - 1]), b)
    ensures Chained(start, a + b)
  {
    var ab := a + b;
    forall k | 0 <= k < |ab| - 1
      ensures Last(ab[k]) == ab[k + 1][0]
    {
      if k + 1 < |a| {
        assert ab[k] == a[k] && ab[k + 1] == a[k + 1];
      } else if k + 1 == |a| {
        assert ab[k] == a[k] && ab[k + 1] == b[0];
      } else {
        assert ab[k] == b[k - |a|] && ab[k + 1] == b[k - |a| + 1];
      }
    }
  }

  /** Extending the segments by one appends exactly that segment's entries. */
  lemma CurveEntriesSnoc(start: Point, segs: seq<Segment>, j: nat)
    requires j < |segs|
    ensures CurveEntries(start, segs[..j + 1])
         == CurveEntries(start, segs[..j]) + SegmentEntries(StartOf(start, segs, j), segs[j])
  {
    assert segs[..j + 1][..j] == segs[..j];
  }

  /** Extending the path by one curve appends exactly that curve's entries. */
  lemma PathEntriesSnoc(path: Path, i: nat)
    requires i < |path|
    ensures PathEntries(path[..i + 1]) == PathEntries(path[..i]) + CurveEntries(path[i].start, path[i].segments)
  {
    assert path[..i + 1][..i] == path[..i];
  }

  /** When a + b is a prefix of c, b sits in c right after a. */
  lemma ConcatPrefixSlice<T>(a: seq<T>, b: seq<T>, c: seq<T>)
    requires a + b <= c
    ensures |a| + |b| <= |c| && c[|a|..|a| + |b|] == b
  {
    assert a + b == c[..|a| + |b|];
    assert (a + b)[|a|..] == b;
  }

  /** The entries of the first m segments are a prefix of the entries of the whole curve. */
  lemma {:induction false} CurveEntriesPrefix(start: Point, segs: seq<Segment>, m: nat)
    requires m <= |segs|
    ensures CurveEntries(start, segs[..m]) <= CurveEntries(start, segs)
    decreases |segs|
  {
    if m == |segs| {
      assert segs[..m] == segs;
    } else {
      var n := |segs| - 1;
      assert segs[..n][..m] == segs[..m];
      CurveEntriesPrefix(start, segs[..n], m);
    }
  }

  /** The entries of the first m curves are a prefix of the entries of the whole path. */
  lemma {:induction false} PathEntriesPrefix(path: Path, m: nat)
    requires m <= |path|
    ensures PathEntries(path[..m]) <= PathEntries(path)
    decreases |path|
  {
    if m == |path| {
      assert path[..m] == path;
    } else {
      var n := |path| - 1;
      assert path[..n][..m] == path[..m];
      PathEntriesPrefix(path[..n], m);
    }
  }

  /** The entries of segments 0..i, that is those before segment i and then its own, start the curve's entries. */
  lemma CurveEntriesThrough(start: Point, segs: seq<Segment>, i: nat)
    requires i < |segs|
    ensures CurveEntries(start, segs[..i]) + SegmentEntries(StartOf(start, segs, i), segs[i])
         <= CurveEntries(start, segs)
  {
    var upto := segs[..i + 1];
    assert upto[..i] == segs[..i] && upto[i] == segs[i];
    assert StartOf(start, upto, i) == StartOf(start, segs, i);
    CurveEntriesPrefix(start, segs, i + 1);
  }

  /** The entries of curves 0..j, that is those before curve j and then its own, start the path's entries. */
  lemma PathEntriesThrough(path: Path, j: nat)
    requires j < |path|
    ensures PathEntries(path[..j]) + CurveEntries(path[j].start, path[j].segments) <= PathEntries(path)
  {
    var upto := path[..j + 1];
    assert upto[..j] == path[..j] && upto[j] == path[j];
    PathEntriesPrefix(path, j + 1);
  }

  /**
   * Order within a curve: segment i's entries sit at the offset given by the
   * weights of the segments before it, and start from segment i - 1's end
   * point (the curve's start for i = 0).
   */
  lemma CurveEntriesAt(start: Point, segs: seq<Segment>, i: nat)
    requires i < |segs|
    ensures SegmentsWeight(segs[..i]) + Weight(segs[i]) <= |CurveEntries(start, segs)|
    ensures CurveEntries(start, segs)[SegmentsWeight(segs[..i])..SegmentsWeight(segs[..i]) + Weight(segs[i])]
         == SegmentEntries(StartOf(start, segs, i), segs[i])
  {
    var before := CurveEntries(start, segs[..i]);
    var here := SegmentEntries(StartOf(start, segs, i), segs[i]);
    CurveEntriesThrough(start, segs, i);
    ConcatPrefixSlice(before, here, CurveEntries(start, segs));
  }

  /** Order across curves: curve j's entries sit after those of the curves before it. */
  lemma PathEntriesAt(path: Path, j: nat)
    requires j < |path|
    ensures PathWeight(path[..j]) + SegmentsWeight(path[j].segments) <= |PathEntries(path)|
    ensures PathEntries(path)[PathWeight(path[..j])..PathWeight(path[..j]) + SegmentsWeight(path[j].segments)]
         == CurveEntries(path[j].start, path[j].segments)
  {
    var before := PathEntries(path[..j]);
    var here := CurveEntries(path[j].start, path[j].segments);
    PathEntriesThrough(path, j);
    ConcatPrefixSlice(before, here, PathEntries(path));
  }

  /** A curve the tracer closed renders as a closed chain: the last entry ends where the first begins. */
  lemma ClosedCurveEntries(curve: Curve)
    requires Closed(curve)
    ensures var es := CurveEntries(curve.start, curve.segments);
            es != [] && Chained(curve.start, es) && Last(es[|es| - 1]) == es[0][0]
  {
    SegmentsWeightBounds(curve.segments);
    CurveEntriesChained(curve.start, curve.segments);
  }

  /** A path of corners only renders to twice as many line entries as it has segments, each of 2 points. */
  lemma {:induction false} CornerOnlyCurve(start: Point, segs: seq<Segment>)
    requires forall i :: 0 <= i < |segs| ==> segs[i].Corner?
    ensures |CurveEntries(start, segs)| == 2 * |segs|
    ensures forall k :: 0 <= k < |CurveEntries(start, segs)| ==> |CurveEntries(start, segs)[k]| == 2
    decreases |segs|
  {
    SegmentsWeightBounds(segs);
    if segs != [] {
      var n := |segs| - 1;
      assert forall i :: 0 <= i < n ==> segs[..n][i].Corner?;
      CornerOnlyCurve(start, segs[..n]);
    }
  }

  /** The outer loop of `get_segments`: one pass over the curves of the path. */
  method GetSegments(path: Path) returns (segments: seq<Entry>)
    ensures segments == PathEntries(path)
  {
    segments := [];
    for i := 0 to |path|
      invariant segments == PathEntries(path[..i])
    {
      segments := AppendCurve(segments, path[i]);
      PathEntriesSnoc(path, i);
    }
    assert path[..|path|] == path;
  }

  /** The inner loop of `get_segments`: appends one curve's entries, carrying the running start point. */
  method AppendCurve(acc: seq<Entry>, curve: Curve) returns (segments: seq<Entry>)
    ensures segments == acc + CurveEntries(curve.start, curve.segments)
  {
    segments := acc;
    var startPoint := curve.start;
    for j := 0 to |curve.segments|
      invariant segments == acc + CurveEntries(curve.start, curve.segments[..j])
      invariant startPoint == StartOf(curve.start, curve.segments, j)
    {
      var segment := curve.segments[j];
      ghost var emitted := CurveEntries(curve.start, curve.segments[..j]);
      CurveEntriesSnoc(curve.start, curve.segments, j);
      var entries := EmitSegment(startPoint, segment);
      segments := segments + entries;
      assert segments == acc + (emitted + entries);
      startPoint := segment.end;
    }
    assert curve.segments[..|curve.segments|] == curve.segments;
  }

  /**
   * The loop body of `get_segments` for one segment: a corner is emitted as
   * two straight entries (start to corner, corner to end), a smooth segment
   * as one four-point cubic entry. This is only the statement-level image of
   * `SegmentEntries`, which stays the one definition the lemmas reason about;
   * the method keeps the loop's proof small.
   */
  method EmitSegment(startPoint: Point, segment: Segment) returns (entries: seq<Entry>)
    ensures entries == SegmentEntries(startPoint, segment)
  {
    var endPoint := segment.end;
    if segment.Corner? {
      var c := segment.c;
      entries := [[startPoint, c], [c, endPoint]];
    } else {
      entries := [[startPoint, segment.c1, segment.c2, endPoint]];
    }
  }
}
