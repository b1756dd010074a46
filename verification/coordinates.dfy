/**
 * `Curves.get_coordinates`: the same walk over the traced path as
 * `get_segments`, but every rendered entry is flattened into `linspace`
 * sampled points, one list of x values and one of y values. Corner halves are
 * sampled with the linear evaluator and smooth segments with the cubic one, at
 * the parameters of `numpy.linspace(0, 1, linspace)`.
 */
module Coordinates {
  import opened Wrappers
  import opened Bezier
  import opened TracedPath
  import opened Segments

  /** One flattened entry: `[xs, ys]`. */
  datatype Sampled = Sampled(xs: seq<real>, ys: seq<real>)

  /** `numpy.linspace` rejects a negative number of samples. */
  datatype CoordinateError = NegativeSampleCount

  /** `numpy.linspace(0, 1, n)`: n parameters spread evenly over [0, 1], both ends included. */
  function Linspace(n: nat): (ts: seq<real>)
    ensures |ts| == n
    ensures n >= 1 ==> ts[0] == 0.0
    ensures n >= 2 ==> ts[n - 1] == 1.0
    ensures forall i :: 0 <= i < n ==> 0.0 <= ts[i] <= 1.0
  {
    var ts := seq(n, i requires 0 <= i < n => if n == 1 then 0.0 else i as real / (n - 1) as real);
    assert forall i :: 0 <= i < n ==> 0.0 <= ts[i] <= 1.0 by {
      forall i | 0 <= i < n
        ensures 0.0 <= ts[i] <= 1.0
      {
        if n > 1 {
          UnitFraction(i, n - 1);
        }
      }
    }
    assert n >= 2 ==> ts[n - 1] == 1.0 by {
      if n >= 2 {
        UnitFraction(n - 1, n - 1);
      }
    }
    ts
  }

  /** A fraction i / d with 0 <= i <= d lies in [0, 1]. */
  lemma UnitFraction(i: nat, d: nat)
    requires 0 < d && i <= d
    ensures 0.0 <= i as real / d as real <= 1.0
    ensures i == d ==> i as real / d as real == 1.0
  {
    assert i as real / d as real * d as real == i as real;
  }

  /** Consecutive parameters are a constant step 1 / (n - 1) apart. */
  lemma LinspaceEvenlySpaced(n: nat, i: nat)
    requires n >= 2 && i + 1 < n
    ensures Linspace(n)[i + 1] - Linspace(n)[i] == 1.0 / (n - 1) as real
  {
    var d := (n - 1) as real;
    assert Linspace(n)[i + 1] == (i + 1) as real / d;
    assert Linspace(n)[i] == i as real / d;
    assert (i + 1) as real / d - i as real / d == ((i + 1) as real - i as real) / d;
  }

  /** A straight entry p0..p1 sampled at every parameter, per coordinate. */
  function SampleLine(p0: Point, p1: Point, ts: seq<real>): (s: Sampled)
    ensures |s.xs| == |ts| && |s.ys| == |ts|
  {
    Sampled(seq(|ts|, i requires 0 <= i < |ts| => Linear(p0.x, p1.x, ts[i])),
            seq(|ts|, i requires 0 <= i < |ts| => Linear(p0.y, p1.y, ts[i])))
  }

  /** A cubic entry sampled at every parameter, per coordinate. */
  function SampleCubic(p0: Point, c1: Point, c2: Point, p3: Point, ts: seq<real>): (s: Sampled)
    ensures |s.xs| == |ts| && |s.ys| == |ts|
  {
    Sampled(seq(|ts|, i requires 0 <= i < |ts| => Cubic(p0.x, c1.x, c2.x, p3.x, ts[i])),
            seq(|ts|, i requires 0 <= i < |ts| => Cubic(p0.y, c1.y, c2.y, p3.y, ts[i])))
  }

  /** How a rendered entry of `get_segments` is sampled: by its length, 2 points linear, 4 points cubic. */
  function SampleEntry(e: Entry, ts: seq<real>): Sampled
    requires WellFormed(e)
  {
    if |e| == 2 then SampleLine(e[0], e[1], ts) else SampleCubic(e[0], e[1], e[2], e[3], ts)
  }

  /** What `get_coordinates` appends for one segment starting at `start`. */
  function SegmentSamples(start: Point, s: Segment, ts: seq<real>): (r: seq<Sampled>)
    ensures |r| == Weight(s)
  {
    match s
    case Corner(c, end) => [SampleLine(start, c, ts), SampleLine(c, end, ts)]
    case Smooth(c1, c2, end) => [SampleCubic(start, c1, c2, end, ts)]
  }

  /** What `get_coordinates` appends for a curve's segments, the first starting at `start`. */
  function CurveSamples(start: Point, segs: seq<Segment>, ts: seq<real>): (r: seq<Sampled>)
    ensures |r| == SegmentsWeight(segs)
    decreases |segs|
  {
    if segs == [] then []
    else
      var n := |segs| - 1;
      CurveSamples(start, segs[..n], ts) + SegmentSamples(StartOf(start, segs, n), segs[n], ts)
  }

  /** Sampling one more segment appends exactly that segment's samples. */
  lemma CurveSamplesSnoc(start: Point, segs: seq<Segment>, j: nat, ts: seq<real>)
    requires j < |segs|
    ensures CurveSamples(start, segs[..j + 1], ts)
         == CurveSamples(start, segs[..j], ts) + SegmentSamples(StartOf(start, segs, j), segs[j], ts)
  {
    assert segs[..j + 1][..j] == segs[..j];
  }

  /** What `get_coordinates` returns for a whole path. */
  function PathSamples(path: Path, ts: seq<real>): (r: seq<Sampled>)
    ensures |r| == PathWeight(path)
    decreases |path|
  {
    if path == [] then []
    else
      var n := |path| - 1;
      PathSamples(path[..n], ts) + CurveSamples(path[n].start, path[n].segments, ts)
  }

  /** Sampled entry k is entry k of the rendered segments, sampled. */
  predicate Mirrors(samples: seq<Sampled>, entries: seq<Entry>, ts: seq<real>) {
    && |samples| == |entries|
    && forall k :: 0 <= k < |entries| ==> WellFormed(entries[k]) && samples[k] == SampleEntry(entries[k], ts)
  }

  /** Mirroring is preserved by concatenating mirrored runs. */
  lemma MirrorsAppend(s1: seq<Sampled>, e1: seq<Entry>, s2: seq<Sampled>, e2: seq<Entry>, ts: seq<real>)
    requires Mirrors(s1, e1, ts) && Mirrors(s2, e2, ts)
    ensures Mirrors(s1 + s2, e1 + e2, ts)
  {
    forall k | 0 <= k < |e1 + e2|
      ensures WellFormed((e1 + e2)[k]) && (s1 + s2)[k] == SampleEntry((e1 + e2)[k], ts)
    {
      if k < |e1| {
        assert (e1 + e2)[k] == e1[k] && (s1 + s2)[k] == s1[k];
      } else {
        assert (e1 + e2)[k] == e2[k - |e1|] && (s1 + s2)[k] == s2[k - |s1|];
      }
    }
  }

  /** One segment: its samples are its rendered entries, sampled. */
  lemma SegmentSamplesMirror(start: Point, s: Segment, ts: seq<real>)
    ensures Mirrors(SegmentSamples(start, s, ts), SegmentEntries(start, s), ts)
  {
  }

  /** One curve: the running start of both walks agrees, so the samples mirror the entries. */
  lemma {:induction false} CurveSamplesMirror(start: Point, segs: seq<Segment>, ts: seq<real>)
    ensures Mirrors(CurveSamples(start, segs, ts), CurveEntries(start, segs), ts)
    decreases |segs|
  {
    if segs != [] {
      var n := |segs| - 1;
      CurveSamplesMirror(start, segs[..n], ts);
      SegmentSamplesMirror(StartOf(start, segs, n), segs[n], ts);
      MirrorsAppend(CurveSamples(start, segs[..n], ts), CurveEntries(start, segs[..n]),
                    SegmentSamples(StartOf(start, segs, n), segs[n], ts),
                    SegmentEntries(StartOf(start, segs, n), segs[n]), ts);
    }
  }

  /** `get_coordinates(n)[k]` is `get_segments()[k]` sampled at the parameters, for every k. */
  lemma {:induction false} PathSamplesMirror(path: Path, ts: seq<real>)
    ensures Mirrors(PathSamples(path, ts), PathEntries(path), ts)
    decreases |path|
  {
    if path != [] {
      var n := |path| - 1;
      PathSamplesMirror(path[..n], ts);
      CurveSamplesMirror(path[n].start, path[n].segments, ts);
      MirrorsAppend(PathSamples(path[..n], ts), PathEntries(path[..n]),
                    CurveSamples(path[n].start, path[n].segments, ts),
                    CurveEntries(path[n].start, path[n].segments), ts);
    }
  }

  /**
   * Every sampled entry has `linspace` values per coordinate; with at least two
   * samples the first is the entry's first point and the last its last point.
   */
  lemma SampleEntryEndpoints(e: Entry, n: nat)
    requires WellFormed(e)
    ensures var s := SampleEntry(e, Linspace(n));
            && |s.xs| == n && |s.ys| == n
            && (n >= 1 ==> s.xs[0] == e[0].x && s.ys[0] == e[0].y)
            && (n >= 2 ==> s.xs[n - 1] == Last(e).x && s.ys[n - 1] == Last(e).y)
  {
    var ts := Linspace(n);
    if |e| == 2 {
      LinearEndpoints(e[0].x, e[1].x);
      LinearEndpoints(e[0].y, e[1].y);
    } else {
      CubicEndpoints(e[0].x, e[1].x, e[2].x, e[3].x);
      CubicEndpoints(e[0].y, e[1].y, e[2].y, e[3].y);
    }
  }

  /**
   * The outer loop of `get_coordinates`: one pass over the curves of the
   * path, with 50 samples per entry unless told otherwise.
   */
  method GetCoordinates(path: Path, linspace: int := 50) returns (r: Result<seq<Sampled>, CoordinateError>)
    ensures r.Failure? <==> linspace < 0 && HasSegment(path)
    ensures r.Success? && linspace < 0 ==> r.value == []
    ensures r.Success? && linspace >= 0 ==> r.value == PathSamples(path, Linspace(linspace))
    ensures r.Success? && linspace >= 0 ==> Mirrors(r.value, PathEntries(path), Linspace(linspace))
  {
    var coordinates: seq<Sampled> := [];
    ghost var ts := Linspace(if linspace < 0 then 0 else linspace);
    for i := 0 to |path|
      invariant coordinates == PathSamples(path[..i], ts)
      invariant !HasSegment(path[..i]) || linspace >= 0
    {
      var next := AppendCurveSamples(coordinates, path[i], linspace);
      if next.Failure? {
        assert path[i].segments != [];
        return Failure(next.error);
      }
      assert path[..i + 1][..i] == path[..i] && path[..i + 1][i] == path[i];
      HasSegmentSnoc(path, i);
      coordinates := next.value;
    }
    assert path[..|path|] == path;
    if linspace < 0 {
      assert !HasSegment(path);
      EmptyPathSamples(path, ts);
    }
    PathSamplesMirror(path, ts);
    r := Success(coordinates);
  }

  /** A path without segments samples to nothing. */
  lemma {:induction false} EmptyPathSamples(path: Path, ts: seq<real>)
    requires !HasSegment(path)
    ensures PathSamples(path, ts) == []
    decreases |path|
  {
    if path != [] {
      var n := |path| - 1;
      assert path[n].segments == [];
      HasSegmentSnoc(path, n);
      assert path[..n + 1] == path;
      EmptyPathSamples(path[..n], ts);
    }
  }

  /**
   * The inner loop of `get_coordinates`: appends one curve's samples, carrying
   * the running start point; `numpy.linspace` fails on the first segment when
   * the sample count is negative.
   */
  method AppendCurveSamples(acc: seq<Sampled>, curve: Curve, linspace: int)
    returns (r: Result<seq<Sampled>, CoordinateError>)
    ensures r.Failure? <==> linspace < 0 && curve.segments != []
    ensures r.Success? ==> r.value == acc + CurveSamples(curve.start, curve.segments, Linspace(if linspace < 0 then 0 else linspace))
  {
    var coordinates := acc;
    var start := curve.start;
    ghost var ts := Linspace(if linspace < 0 then 0 else linspace);
    for j := 0 to |curve.segments|
      invariant coordinates == acc + CurveSamples(curve.start, curve.segments[..j], ts)
      invariant start == StartOf(curve.start, curve.segments, j)
      invariant linspace < 0 ==> j == 0
    {
      if linspace < 0 {
        return Failure(NegativeSampleCount);
      }
      var t := Linspace(linspace);
      assert t == ts;
      var segment := curve.segments[j];
      ghost var emitted := CurveSamples(curve.start, curve.segments[..j], t);
      CurveSamplesSnoc(curve.start, curve.segments, j, t);
      var samples := SampleSegment(start, segment, t);
      coordinates := coordinates + samples;
      assert coordinates == acc + (emitted + samples);
      start := segment.end;
    }
    assert curve.segments[..|curve.segments|] == curve.segments;
    r := Success(coordinates);
  }

  /**
   * The loop body of `get_coordinates` for one segment: a corner gives two
   * linear entries (start to corner, corner to end), a smooth segment one
   * cubic entry. This is only the statement-level image of `SegmentSamples`,
   * which stays the one definition the lemmas reason about; the method keeps
   * the loop's proof small.
   */
  method SampleSegment(start: Point, segment: Segment, t: seq<real>) returns (samples: seq<Sampled>)
    ensures samples == SegmentSamples(start, segment, t)
  {
    if segment.Corner? {
      var c := segment.c;
      var firstLine := SampleLine(start, c, t);
      var secondLine := SampleLine(c, segment.end, t);
      samples := [firstLine, secondLine];
    } else {
      samples := [SampleCubic(start, segment.c1, segment.c2, segment.end, t)];
    }
  }
}
