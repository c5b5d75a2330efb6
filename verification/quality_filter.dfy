/**
 * The image quality filter (`ImageQualityFilter.is_meaningful_image` and its two
 * statistical helpers): an ordered chain of rejection rules, the first failing
 * rule giving the verdict.
 *
 * An image is described by its pixel dimensions and by the gray-level histogram
 * of the grayscale copy the two statistical helpers look at (the program
 * thumbnails that copy to at most 500x500 first; the histogram here is the one
 * of the copy actually analysed).  `AnalysisFailed` stands for any error raised
 * while producing or analysing that copy.
 */
module QualityFilter {

  const DefaultMinSize: int := 100
  const DefaultMaxAspectRatio: int := 10
  /** `min_unique_colors` of the complexity check. */
  const MinUniqueColors: nat := 10
  /** `maxcolors` handed to `getcolors`: beyond it PIL returns `None`. */
  const MaxColors: nat := 256 * 256
  /** `min_std` of the variance check. */
  const MinStdDev: nat := 15

  datatype GrayAnalysis = Histogram(counts: seq<nat>) | AnalysisFailed

  datatype ImageInfo = ImageInfo(width: nat, height: nat, gray: GrayAnalysis)

  datatype Reason =
    | TooSmall(width: nat, height: nat)
    | ExtremeAspectRatio
    | InsufficientArea(area: nat)
    | LowComplexity
    | LowVariance
    | CheckError
    | PassedAllChecks

  /** Accept or reject plus the logged reason. */
  datatype Verdict = Verdict(accepted: bool, reason: Reason)

  // ---------------------------------------------------------------------------
  // Histogram statistics
  // ---------------------------------------------------------------------------

  /** The gray levels present in the image. */
  ghost function Levels(h: seq<nat>): set<nat> {
    set i: nat | i < |h| && h[i] > 0
  }

  /** Number of pixels. */
  function PixelCount(h: seq<nat>): nat {
    if |h| == 0 then 0 else PixelCount(h[..|h| - 1]) + h[|h| - 1]
  }

  /** Sum of the gray values of all pixels. */
  function LevelSum(h: seq<nat>): nat {
    if |h| == 0 then 0 else LevelSum(h[..|h| - 1]) + (|h| - 1) * h[|h| - 1]
  }

  /** Sum of the squared gray values of all pixels. */
  function SquareSum(h: seq<nat>): nat {
    if |h| == 0 then 0 else SquareSum(h[..|h| - 1]) + (|h| - 1) * (|h| - 1) * h[|h| - 1]
  }

  /** `len(getcolors())`: how many gray levels occur, counted bin by bin. */
  function DistinctLevels(h: seq<nat>): (d: nat)
    ensures d <= |h|
    ensures d == 0 <==> PixelCount(h) == 0
  {
    if |h| == 0 then 0
    else DistinctLevels(h[..|h| - 1]) + (if h[|h| - 1] > 0 then 1 else 0)
  }

  /** The bin-by-bin count is the number of gray levels present. */
  lemma {:induction false} DistinctLevelsIsLevelCount(h: seq<nat>)
    ensures DistinctLevels(h) == |Levels(h)|
    decreases |h|
  {
    if |h| > 0 {
      var init := h[..|h| - 1];
      DistinctLevelsIsLevelCount(init);
      var last: nat := |h| - 1;
      assert last !in Levels(init);
      if h[last] > 0 {
        assert Levels(h) == Levels(init) + {last};
      } else {
        assert Levels(h) == Levels(init);
      }
    }
  }

  /**
   * `_has_sufficient_complexity`: at least `MinUniqueColors` gray levels.  An
   * empty colour list or `None` (more than `MaxColors` levels) and any failure
   * all count as complex enough.
   */
  function HasSufficientComplexity(g: GrayAnalysis): bool {
    match g
    case AnalysisFailed => true
    case Histogram(h) =>
      var d := DistinctLevels(h);
      d == 0 || d > MaxColors || d >= MinUniqueColors
  }

  /**
   * The variance test on the pixel count N, the sum S and the sum of squares Q:
   * the population variance is (N*Q - S*S) / (N*N), so "standard deviation at
   * least `MinStdDev`" is stated without division or square root.  No pixels
   * means a division by zero, which counts as enough variance.
   */
  predicate VarianceOk(n: nat, s: nat, q: nat) {
    n == 0 || n * q - s * s >= MinStdDev * MinStdDev * (n * n)
  }

  /** `_has_sufficient_variance`; any failure counts as enough variance. */
  function HasSufficientVariance(g: GrayAnalysis): bool {
    match g
    case AnalysisFailed => true
    case Histogram(h) => VarianceOk(PixelCount(h), LevelSum(h), SquareSum(h))
  }

  /** The variance as the imaging library computes it from N, S and Q: (Q - S*S/N) / N. */
  ghost function Variance(n: nat, s: nat, q: nat): real
    requires n > 0
  {
    ((q as real) - (s as real) * (s as real) / (n as real)) / (n as real)
  }

  lemma ScaleComparison(v: real, k: real, m: real)
    requires m > 0.0
    ensures v >= k <==> v * m >= k * m
  {
    assert v * m - k * m == (v - k) * m;
  }

  /** Over the reals, (Q - S*S/N) / N >= K is the same test as N*Q - S*S >= K*N*N. */
  lemma DivisionFreeComparison(n: real, s: real, q: real, k: real)
    requires n > 0.0
    ensures (q - s * s / n) / n >= k <==> n * q - s * s >= k * (n * n)
  {
    var v := (q - s * s / n) / n;
    assert v * n == q - s * s / n;
    assert (s * s / n) * n == s * s;
    assert v * n * n == n * q - s * s;
    ScaleComparison(v, k, n);
    ScaleComparison(v * n, k * n, n);
  }

  lemma CastProduct(a: int, b: int)
    ensures (a * b) as real == (a as real) * (b as real)
  {
  }

  /** The division-free test agrees with comparing the real variance against the squared threshold. */
  lemma VarianceTestExact(n: nat, s: nat, q: nat)
    requires n > 0
    ensures VarianceOk(n, s, q) <==> Variance(n, s, q) >= (MinStdDev * MinStdDev) as real
  {
    DivisionFreeComparison(n as real, s as real, q as real, 225.0);
    var nq, ss, nn := n * q, s * s, n * n;
    CastProduct(n, q);
    CastProduct(s, s);
    CastProduct(n, n);
    assert VarianceOk(n, s, q) <==> nq - ss >= 225 * nn;
    assert (nq - ss) as real == nq as real - ss as real;
    assert (225 * nn) as real == 225.0 * (nn as real);
  }

  /** All pixels have gray value `v`. */
  ghost predicate OnlyLevel(h: seq<nat>, v: nat) {
    forall i :: 0 <= i < |h| && i != v ==> h[i] == 0
  }

  /** The sums of an image with a single gray level `v`. */
  lemma {:induction false} OnlyLevelSums(h: seq<nat>, v: nat)
    requires OnlyLevel(h, v)
    ensures var c := if v < |h| then h[v] else 0;
      && PixelCount(h) == c
      && LevelSum(h) == v * c
      && SquareSum(h) == v * v * c
    decreases |h|
  {
    if |h| > 0 {
      var init := h[..|h| - 1];
      OnlyLevelSums(init, v);
    }
  }

  /** An image with a single gray level has exactly one level present. */
  lemma {:induction false} OnlyLevelDistinct(h: seq<nat>, v: nat)
    requires OnlyLevel(h, v) && v < |h| && h[v] > 0
    ensures DistinctLevels(h) == 1
  {
    DistinctLevelsIsLevelCount(h);
    assert Levels(h) == {v};
  }

  // ---------------------------------------------------------------------------
  // The rule chain
  // ---------------------------------------------------------------------------

  function Min(a: nat, b: nat): nat { if a <= b then a else b }
  function Max(a: nat, b: nat): nat { if a <= b then b else a }

  /** Rule 1: neither side below `minSize`. */
  predicate SizeOk(img: ImageInfo, minSize: int) {
    img.width >= minSize && img.height >= minSize
  }

  /**
   * Rule 2: long side / short side is at most `maxAspect`.  The ratio is a
   * true division, so a zero short side raises instead of passing or failing.
   */
  predicate AspectOk(img: ImageInfo, maxAspect: int) {
    var lo := Min(img.width, img.height);
    lo > 0 && Max(img.width, img.height) <= maxAspect * lo
  }

  /** Rule 3: area at least `minSize` squared. */
  predicate AreaOk(img: ImageInfo, minSize: int) {
    img.width * img.height >= minSize * minSize
  }

  /**
   * `is_meaningful_image`: size, aspect ratio, area, complexity, variance, in
   * that order; the first failing rule gives the reason.  The division by a zero
   * short side is the one error the wrapper catches itself, and it rejects.
   */
  function IsMeaningfulImage(img: ImageInfo, minSize: int, maxAspect: int): (v: Verdict)
    ensures v.accepted <==> v.reason == PassedAllChecks
    // accepted exactly when every rule passes
    ensures v.accepted <==>
      && SizeOk(img, minSize) && AspectOk(img, maxAspect) && AreaOk(img, minSize)
      && HasSufficientComplexity(img.gray) && HasSufficientVariance(img.gray)
    // the size rule runs first, whatever the content
    ensures !SizeOk(img, minSize) ==> v == Verdict(false, TooSmall(img.width, img.height))
    ensures v.reason.TooSmall? ==> !SizeOk(img, minSize)
    // each later reason is given only when every earlier rule passed and its own failed
    ensures v.reason.CheckError? ==> SizeOk(img, minSize) && Min(img.width, img.height) == 0
    ensures v.reason.ExtremeAspectRatio? ==>
      SizeOk(img, minSize) && Min(img.width, img.height) > 0 && !AspectOk(img, maxAspect)
    ensures v.reason.InsufficientArea? ==>
      SizeOk(img, minSize) && AspectOk(img, maxAspect) && !AreaOk(img, minSize)
      && v.reason.area == img.width * img.height
    ensures v.reason.LowComplexity? ==>
      SizeOk(img, minSize) && AspectOk(img, maxAspect) && AreaOk(img, minSize)
      && !HasSufficientComplexity(img.gray)
    ensures v.reason.LowVariance? ==>
      SizeOk(img, minSize) && AspectOk(img, maxAspect) && AreaOk(img, minSize)
      && HasSufficientComplexity(img.gray) && !HasSufficientVariance(img.gray)
  {
    var w := img.width;
    var h := img.height;
    if w < minSize || h < minSize then Verdict(false, TooSmall(w, h))
    else if Min(w, h) == 0 then Verdict(false, CheckError)
    else if Max(w, h) > maxAspect * Min(w, h) then Verdict(false, ExtremeAspectRatio)
    else if w * h < minSize * minSize then Verdict(false, InsufficientArea(w * h))
    else if !HasSufficientComplexity(img.gray) then Verdict(false, LowComplexity)
    else if !HasSufficientVariance(img.gray) then Verdict(false, LowVariance)
    else Verdict(true, PassedAllChecks)
  }

  // ---------------------------------------------------------------------------
  // Properties of the chain
  // ---------------------------------------------------------------------------

  /**
   * With a positive minimum size an image that passes the size rule has a
   * non-zero short side, so the ratio is defined: the aspect rule rejects
   * exactly when the long side exceeds `maxAspect` times the short one, and the
   * error path is never taken.
   */
  lemma AspectRuleExact(img: ImageInfo, minSize: int, maxAspect: int)
    requires minSize >= 1 && SizeOk(img, minSize)
    ensures var v := IsMeaningfulImage(img, minSize, maxAspect);
      && !v.reason.CheckError?
      && (v.reason.ExtremeAspectRatio? <==>
            Max(img.width, img.height) > maxAspect * Min(img.width, img.height))
  {
  }

  /** The error path is taken exactly for a zero side admitted by a minimum size of at most 0. */
  lemma CheckErrorExact(img: ImageInfo, minSize: int, maxAspect: int)
    ensures IsMeaningfulImage(img, minSize, maxAspect).reason.CheckError? <==>
      minSize <= 0 && (img.width == 0 || img.height == 0)
  {
  }

  lemma MulMonotone(a: int, b: int, c: int, d: int)
    requires 0 <= a <= b && 0 <= c <= d
    ensures a * c <= b * d
  {
    assert a * c <= b * c;
    assert b * c <= b * d;
  }

  /**
   * For a non-negative minimum size the area rule never fires: both sides at
   * least `minSize` already give an area of at least `minSize` squared.
   */
  lemma AreaRuleUnreachable(img: ImageInfo, minSize: int, maxAspect: int)
    requires minSize >= 0
    ensures !IsMeaningfulImage(img, minSize, maxAspect).reason.InsufficientArea?
  {
    if SizeOk(img, minSize) {
      MulMonotone(minSize, img.width, minSize, img.height);
    }
  }

  /** With a negative minimum size the area rule can fire: a 1x1 image against -2. */
  lemma AreaRuleReachableWhenMinNegative()
    ensures IsMeaningfulImage(ImageInfo(1, 1, AnalysisFailed), -2, DefaultMaxAspectRatio)
      == Verdict(false, InsufficientArea(1))
  {
  }

  /**
   * The complexity rule is a count of gray levels: for a real 256-level
   * grayscale histogram with at least one pixel it passes exactly when ten or
   * more distinct levels occur.
   */
  lemma ComplexityExact(h: seq<nat>)
    requires |h| == 256 && PixelCount(h) > 0
    ensures HasSufficientComplexity(Histogram(h)) <==> |Levels(h)| >= MinUniqueColors
  {
    DistinctLevelsIsLevelCount(h);
  }

  /** A single-colour image has one gray level and no variance: both statistical rules reject it. */
  lemma SolidImageFailsStatistics(h: seq<nat>, v: nat)
    requires OnlyLevel(h, v) && v < |h| && h[v] > 0
    ensures !HasSufficientComplexity(Histogram(h))
    ensures !HasSufficientVariance(Histogram(h))
  {
    OnlyLevelDistinct(h, v);
    OnlyLevelSums(h, v);
    var c := h[v];
    assert PixelCount(h) * SquareSum(h) - LevelSum(h) * LevelSum(h) == 0 by {
      assert PixelCount(h) * SquareSum(h) == c * (v * v * c);
      assert LevelSum(h) * LevelSum(h) == (v * c) * (v * c);
    }
  }

  /**
   * A single-colour image of at least the minimum size and an acceptable shape
   * is rejected, by the complexity rule.
   */
  lemma SolidImageRejected(img: ImageInfo, minSize: int, maxAspect: int, v: nat)
    requires img.gray.Histogram? && OnlyLevel(img.gray.counts, v)
    requires v < |img.gray.counts| && img.gray.counts[v] > 0
    requires minSize >= 0 && SizeOk(img, minSize) && AspectOk(img, maxAspect)
    ensures IsMeaningfulImage(img, minSize, maxAspect) == Verdict(false, LowComplexity)
  {
    SolidImageFailsStatistics(img.gray.counts, v);
    AreaRuleUnreachable(img, minSize, maxAspect);
  }

  /**
   * The two statistical helpers fail open: when the analysis fails, an image
   * that passes the three shape rules is accepted.  The shape part fails
   * closed: its error rejects.
   */
  lemma AnalysisFailureFailsOpen(img: ImageInfo, minSize: int, maxAspect: int)
    requires img.gray == AnalysisFailed
    ensures IsMeaningfulImage(img, minSize, maxAspect).accepted <==>
      SizeOk(img, minSize) && AspectOk(img, maxAspect) && AreaOk(img, minSize)
  {
  }
}
