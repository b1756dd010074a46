/**
 * The constructor of `Curves`: pick an edge detector by name, clamp its 8-bit
 * output into a 0/1 mask, and hand the mask to the tracer. The detectors
 * (OpenCV) and the tracer (potrace) are not modelled; they enter as opaque
 * functions.
 */
module Edges {
  import opened Wrappers
  import opened TracedPath

  /** One sample of a single-channel 8-bit image. */
  type Byte = x: int | 0 <= x < 256

  /** A single-channel image as rows of samples. */
  type Grid = seq<seq<Byte>>

  /** The detectors a media object offers: Canny with (low, high) thresholds, and Sobel. */
  datatype Media = Media(canny: (int, int) -> Grid, sobel: Grid)

  /** The constructor raises `ValueError("Invalid algorithm.")` for any other name. */
  datatype CurvesError = InvalidAlgorithm

  /** What the constructor keeps: the clamped mask and the traced path. */
  datatype Curves = Curves(mask: Grid, path: Path)

  /** Both images have the same number of rows, and each row the same width. */
  predicate SameShape(a: Grid, b: Grid) {
    |a| == |b| && forall i :: 0 <= i < |a| ==> |a[i]| == |b[i]|
  }

  /** Every sample is 0 or 1, as the tracer expects. */
  predicate IsBinary(g: Grid) {
    forall i, j :: 0 <= i < |g| && 0 <= j < |g[i]| ==> g[i][j] == 0 || g[i][j] == 1
  }

  /**
   * The detector dispatch: "Canny" passes thresholds[0] as the low and
   * thresholds[1] as the high threshold, "Sobel" takes no thresholds, and any
   * other name fails. The thresholds are not checked.
   */
  function Detect(media: Media, algorithm: string, thresholds: (int, int)): (r: Result<Grid, CurvesError>)
    ensures r.Failure? <==> algorithm != "Canny" && algorithm != "Sobel"
    ensures r.Failure? ==> r.error == InvalidAlgorithm
    ensures algorithm == "Canny" ==> r == Success(media.canny(thresholds.0, thresholds.1))
    ensures algorithm == "Sobel" ==> r == Success(media.sobel)
  {
    match algorithm
    case "Canny" => Success(media.canny(thresholds.0, thresholds.1))
    case "Sobel" => Success(media.sobel)
    case _ => Failure(InvalidAlgorithm)
  }

  /** The Sobel detector is the same whatever thresholds the caller passed. */
  lemma SobelIgnoresThresholds(media: Media, t1: (int, int), t2: (int, int))
    ensures Detect(media, "Sobel", t1) == Detect(media, "Sobel", t2)
  {
  }

  /** Any sample above 1 becomes 1; the rest pass through. */
  function ClampSample(v: Byte): Byte {
    if v > 1 then 1 else v
  }

  /** The mask clamp: every row with its samples above 1 set to 1. */
  function ClampMask(g: Grid): (r: Grid)
    ensures SameShape(g, r)
    ensures IsBinary(r)
    ensures forall i, j :: 0 <= i < |g| && 0 <= j < |g[i]| ==> r[i][j] == ClampSample(g[i][j])
  {
    seq(|g|, i requires 0 <= i < |g| => ClampRow(g[i]))
  }

  /** `row[row > 1] = 1` on one row. */
  function ClampRow(row: seq<Byte>): (r: seq<Byte>)
    ensures |r| == |row|
    ensures forall j :: 0 <= j < |row| ==> r[j] == ClampSample(row[j])
  {
    seq(|row|, j requires 0 <= j < |row| => ClampSample(row[j]))
  }

  /** Clamping twice is clamping once. */
  lemma ClampIdempotent(g: Grid)
    ensures ClampMask(ClampMask(g)) == ClampMask(g)
  {
    var once := ClampMask(g);
    var twice := ClampMask(once);
    forall i | 0 <= i < |g|
      ensures twice[i] == once[i]
    {
      assert ClampRow(once[i]) == once[i];
    }
  }

  /** The clamp leaves an image unchanged exactly when it is already binary. */
  lemma ClampFixedPoint(g: Grid)
    ensures ClampMask(g) == g <==> IsBinary(g)
  {
    if IsBinary(g) {
      forall i | 0 <= i < |g|
        ensures ClampMask(g)[i] == g[i]
      {
        assert ClampRow(g[i]) == g[i];
      }
    }
  }

  /** The loop of the constructor over the rows, clamping each row in place. */
  method ClampRows(media: Grid) returns (m: Grid)
    ensures m == ClampMask(media)
  {
    m := media;
    for i := 0 to |m|
      invariant |m| == |media|
      invariant forall k :: 0 <= k < i ==> m[k] == ClampRow(media[k])
      invariant forall k :: i <= k < |m| ==> m[k] == media[k]
    {
      m := m[i := ClampRow(m[i])];
    }
  }

  /**
   * The constructor of `Curves`: detector dispatch, mask clamp, then the
   * tracer applied to the clamped mask. The algorithm defaults to Canny with
   * thresholds 50 and 150, as in the constructor's signature; the tracer is
   * passed by name after them.
   */
  function InitCurves(media: Media, algorithm: string := "Canny", thresholds: (int, int) := (50, 150), trace: Grid -> Path)
    : (r: Result<Curves, CurvesError>)
    ensures r.Failure? <==> algorithm != "Canny" && algorithm != "Sobel"
    ensures r.Success? ==> IsBinary(r.value.mask) && r.value.path == trace(r.value.mask)
    ensures r.Success? ==> SameShape(Detect(media, algorithm, thresholds).value, r.value.mask)
    ensures r.Success? ==> r.value.mask == ClampMask(Detect(media, algorithm, thresholds).value)
  {
    var detected :- Detect(media, algorithm, thresholds);
    var mask := ClampMask(detected);
    Success(Curves(mask, trace(mask)))
  }
}
