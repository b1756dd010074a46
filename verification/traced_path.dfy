/**
 * The result of the bitmap tracer, taken as input. A path is a sequence of
 * curves; a curve has a declared start point and an ordered sequence of
 * segments, each a corner (one control point) or a smooth cubic segment (two
 * control points). Segments carry only their end point: the start of a segment
 * is the curve's start for the first one and the previous segment's end after
 * that. Closure of a curve is not assumed.
 */
module TracedPath {

  datatype Point = Point(x: real, y: real)

  datatype Segment =
    | Corner(c: Point, end: Point)
    | Smooth(c1: Point, c2: Point, end: Point)

  datatype Curve = Curve(start: Point, segments: seq<Segment>)

  type Path = seq<Curve>

  /** How many rendered entries a segment produces: two line halves for a corner, one cubic otherwise. */
  function Weight(s: Segment): nat {
    if s.Corner? then 2 else 1
  }

  /** Total number of entries the segments of one curve produce. */
  function SegmentsWeight(segs: seq<Segment>): nat
    decreases |segs|
  {
    if segs == [] then 0
    else SegmentsWeight(segs[..|segs| - 1]) + Weight(segs[|segs| - 1])
  }

  /** Total number of entries a whole path produces. */
  function PathWeight(path: Path): nat
    decreases |path|
  {
    if path == [] then 0
    else PathWeight(path[..|path| - 1]) + SegmentsWeight(path[|path| - 1].segments)
  }

  /** The point segment i of a curve starts from: the curve start, or the end of segment i - 1. */
  function StartOf(start: Point, segs: seq<Segment>, i: nat): Point
    requires i <= |segs|
  {
    if i == 0 then start else segs[i - 1].end
  }

  /** True when some curve of the path holds at least one segment. */
  predicate HasSegment(path: Path) {
    exists i :: 0 <= i < |path| && path[i].segments != []
  }

  /** A curve whose last segment returns to its declared start. */
  predicate Closed(curve: Curve) {
    curve.segments != [] && curve.segments[|curve.segments| - 1].end == curve.start
  }

  /** A prefix one curve longer has a segment exactly when the shorter prefix or that curve has one. */
  lemma HasSegmentSnoc(path: Path, i: nat)
    requires i < |path|
    ensures HasSegment(path[..i + 1]) <==> HasSegment(path[..i]) || path[i].segments != []
  {
    var longer := path[..i + 1];
    if HasSegment(longer) {
      var j :| 0 <= j < |longer| && longer[j].segments != [];
      if j < i {
        assert path[..i][j] == longer[j];
      }
    }
    if HasSegment(path[..i]) {
      var j :| 0 <= j < i && path[..i][j].segments != [];
      assert longer[j] == path[..i][j];
    }
    if path[i].segments != [] {
      assert longer[i] == path[i];
    }
  }

  /** Entry counts add up over a concatenation of segment runs. */
  lemma {:induction false} SegmentsWeightAppend(a: seq<Segment>, b: seq<Segment>)
    ensures SegmentsWeight(a + b) == SegmentsWeight(a) + SegmentsWeight(b)
    decreases |b|
  {
    if b == [] {
      assert a + b == a;
    } else {
      var n := |b| - 1;
      assert (a + b)[..|a + b| - 1] == a + b[..n];
      SegmentsWeightAppend(a, b[..n]);
    }
  }

  /** A curve produces at least as many entries as it has segments, and at most twice as many. */
  lemma {:induction false} SegmentsWeightBounds(segs: seq<Segment>)
    ensures |segs| <= SegmentsWeight(segs) <= 2 * |segs|
    ensures SegmentsWeight(segs) == 2 * |segs| <==> forall i :: 0 <= i < |segs| ==> segs[i].Corner?
    decreases |segs|
  {
    if segs != [] {
      var n := |segs| - 1;
      SegmentsWeightBounds(segs[..n]);
      if SegmentsWeight(segs) == 2 * |segs| {
        assert segs[n].Corner?;
        assert forall i :: 0 <= i < n ==> segs[..n][i] == segs[i];
      }
      if forall i :: 0 <= i < |segs| ==> segs[i].Corner? {
        assert forall i :: 0 <= i < n ==> segs[..n][i].Corner?;
      }
    }
  }

  /** A path renders to no entries exactly when none of its curves holds a segment. */
  lemma {:induction false} PathWeightZero(path: Path)
    ensures PathWeight(path) == 0 <==> !HasSegment(path)
    decreases |path|
  {
    if path != [] {
      var n := |path| - 1;
      PathWeightZero(path[..n]);
      HasSegmentSnoc(path, n);
      assert path[..n + 1] == path;
      SegmentsWeightBounds(path[n].segments);
    }
  }
}
