/**
 * Bright-pixel movement tracker of soccer_analysis_app.py (analyze_video_for_movement).
 *
 * Each frame read from the video is converted to grey, binarised at level 200
 * (strictly brighter pixels become 255, all others 0), and the raw image moments
 * m00, m10 and m01 of the whole binary image are taken. When m00 is not zero the
 * point (int(m10 / m00), int(m01 / m00)) is appended to the movement path. The
 * loop stops at the first read that fails.
 *
 * A frame is a sequence of rows of grey levels: x indexes a column, y a row.
 */
module MovementTracker {
  import opened Wrappers

  /** The level passed to cv2.threshold: pixels strictly above it are bright. */
  const Threshold: int := 200

  /** The value cv2.threshold writes for a bright pixel (THRESH_BINARY). */
  const MaxValue: Grey := 255

  /** An 8-bit grey level. */
  type Grey = g: int | 0 <= g <= 255

  /** A single-channel frame, row by row. */
  type Frame = seq<seq<Grey>>

  /** A pixel position: column x, row y. */
  datatype Point = Point(x: int, y: int)

  /** Every row of `f` has `width` pixels, as in a decoded video frame. */
  predicate Rectangular(f: Frame, width: nat)
  {
    forall y :: 0 <= y < |f| ==> |f[y]| == width
  }

  /** The pixel at column x, row y exists and lies strictly above the threshold. */
  predicate IsBright(f: Frame, x: int, y: int)
  {
    0 <= y < |f| && 0 <= x < |f[y]| && f[y][x] > Threshold
  }

  ghost predicate HasBright(f: Frame)
  {
    exists y, x :: IsBright(f, x, y)
  }

  // ---------------------------------------------------------------------------
  // Thresholding (cv2.threshold with THRESH_BINARY)
  // ---------------------------------------------------------------------------

  /** One pixel of the binary image. */
  function Binarize(v: Grey): (r: Grey)
    ensures r == MaxValue <==> v > Threshold
    ensures r == 0 <==> v <= Threshold
  {
    if v > Threshold then MaxValue else 0
  }

  function ThresholdRow(row: seq<Grey>): (t: seq<Grey>)
    ensures |t| == |row|
    ensures forall x :: 0 <= x < |row| ==> t[x] == Binarize(row[x])
  {
    if row == [] then [] else ThresholdRow(row[..|row| - 1]) + [Binarize(row[|row| - 1])]
  }

  function ThresholdFrame(f: Frame): (t: Frame)
    ensures |t| == |f|
    ensures forall y :: 0 <= y < |f| ==> t[y] == ThresholdRow(f[y])
  {
    if f == [] then [] else ThresholdFrame(f[..|f| - 1]) + [ThresholdRow(f[|f| - 1])]
  }

  // ---------------------------------------------------------------------------
  // Raw image moments (cv2.moments): m00 = Σ I(x,y), m10 = Σ x·I(x,y), m01 = Σ y·I(x,y)
  // ---------------------------------------------------------------------------

  datatype Moments = Moments(m00: int, m10: int, m01: int)

  /** Σ_x I(x) over one row. */
  function RowSum(row: seq<Grey>): int
  {
    if row == [] then 0 else RowSum(row[..|row| - 1]) + row[|row| - 1]
  }

  /** Σ_x x·I(x) over one row. */
  function RowXSum(row: seq<Grey>): int
  {
    if row == [] then 0 else RowXSum(row[..|row| - 1]) + (|row| - 1) * row[|row| - 1]
  }

  /** The zeroth and first raw moments of a whole image, summed row by row. */
  function ImageMoments(img: Frame): Moments
  {
    if img == [] then Moments(0, 0, 0)
    else
      var m := ImageMoments(img[..|img| - 1]);
      var row := img[|img| - 1];
      Moments(m.m00 + RowSum(row), m.m10 + RowXSum(row), m.m01 + (|img| - 1) * RowSum(row))
  }

  function Abs(a: int): nat
  {
    if a < 0 then -a else a
  }

  /**
   * Python's int(a / b): the exact quotient truncated toward zero. For the
   * non-negative operands the moments supply it is Dafny's floor division.
   */
  function TruncDiv(a: int, b: int): (q: int)
    requires b != 0
    ensures a >= 0 && b > 0 ==> q == a / b
  {
    if (a < 0) == (b < 0) then Abs(a) / Abs(b) else -(Abs(a) / Abs(b))
  }

  /** The per-frame step: threshold, moments, and the centroid when m00 != 0. */
  function DetectCentroid(frame: Frame): Option<Point>
  {
    var m := ImageMoments(ThresholdFrame(frame));
    if m.m00 != 0 then Some(Point(TruncDiv(m.m10, m.m00), TruncDiv(m.m01, m.m00))) else None
  }

  // ---------------------------------------------------------------------------
  // The bright pixels as an explicit list, and sums over it
  // ---------------------------------------------------------------------------

  /** The bright pixel the last pixel of a non-empty row contributes, if any. */
  function BrightTail(row: seq<Grey>, y: int): seq<Point>
    requires row != []
  {
    if row[|row| - 1] > Threshold then [Point(|row| - 1, y)] else []
  }

  /** The bright pixels of row y, left to right. */
  function BrightInRow(row: seq<Grey>, y: int): seq<Point>
  {
    if row == [] then [] else BrightInRow(row[..|row| - 1], y) + BrightTail(row, y)
  }

  /** The bright pixels of a frame, in row-major order. */
  function BrightPixels(f: Frame): seq<Point>
  {
    if f == [] then [] else BrightPixels(f[..|f| - 1]) + BrightInRow(f[|f| - 1], |f| - 1)
  }

  /** BrightInRow lists exactly the pixels of row y above the threshold. */
  lemma {:induction false} BrightInRowMembers(row: seq<Grey>, y: int)
    ensures forall p :: p in BrightInRow(row, y) <==> p.y == y && 0 <= p.x < |row| && row[p.x] > Threshold
  {
    if row != [] {
      BrightInRowMembers(row[..|row| - 1], y);
    }
  }

  /** BrightPixels lists exactly the pixels of the frame above the threshold. */
  lemma {:induction false} BrightPixelsMembers(f: Frame)
    ensures forall p :: p in BrightPixels(f) <==> IsBright(f, p.x, p.y)
  {
    if f != [] {
      var n := |f|;
      BrightPixelsMembers(f[..n - 1]);
      BrightInRowMembers(f[n - 1], n - 1);
      assert forall p: Point :: IsBright(f[..n - 1], p.x, p.y) <==> IsBright(f, p.x, p.y) && p.y < n - 1;
    }
  }

  /** Row-major order on pixel positions: by row, then by column. */
  predicate RowMajorBefore(p: Point, q: Point)
  {
    p.y < q.y || (p.y == q.y && p.x < q.x)
  }

  /** The bright pixels of a row are listed left to right, each column once. */
  lemma {:induction false} BrightInRowIncreasing(row: seq<Grey>, y: int)
    ensures forall i, j :: 0 <= i < j < |BrightInRow(row, y)| ==> BrightInRow(row, y)[i].x < BrightInRow(row, y)[j].x
  {
    if row != [] {
      var n := |row|;
      var prev := BrightInRow(row[..n - 1], y);
      BrightInRowIncreasing(row[..n - 1], y);
      BrightInRowMembers(row[..n - 1], y);
      BrightInRowLast(row, y);
      var ps := prev + BrightTail(row, y);
      forall i, j | 0 <= i < j < |ps| ensures ps[i].x < ps[j].x {
        if j >= |prev| {
          assert prev[i] in prev;
        }
      }
    }
  }

  /** Positions listed in strictly increasing row-major order. */
  predicate StrictlyRowMajor(ps: seq<Point>)
  {
    forall i, j :: 0 <= i < j < |ps| ==> RowMajorBefore(ps[i], ps[j])
  }

  /** Two row-major lists, the first wholly in earlier rows, concatenate to a row-major list. */
  lemma RowMajorConcat(a: seq<Point>, b: seq<Point>)
    requires StrictlyRowMajor(a) && StrictlyRowMajor(b)
    requires forall i, j :: 0 <= i < |a| && 0 <= j < |b| ==> a[i].y < b[j].y
    ensures StrictlyRowMajor(a + b)
  {
    var c := a + b;
    forall i, j | 0 <= i < j < |c| ensures RowMajorBefore(c[i], c[j]) {
      if i >= |a| {
        assert c[i] == b[i - |a|] && c[j] == b[j - |a|];
      } else if j >= |a| {
        assert c[i] == a[i] && c[j] == b[j - |a|];
      } else {
        assert c[i] == a[i] && c[j] == a[j];
      }
    }
  }

  /** The bright pixels of a frame are listed in strict row-major order, so none appears twice. */
  lemma {:induction false} BrightPixelsRowMajor(f: Frame)
    ensures StrictlyRowMajor(BrightPixels(f))
    ensures forall i, j :: 0 <= i < j < |BrightPixels(f)| ==> BrightPixels(f)[i] != BrightPixels(f)[j]
  {
    if f != [] {
      var n := |f|;
      var prev, last := BrightPixels(f[..n - 1]), BrightInRow(f[n - 1], n - 1);
      BrightPixelsRowMajor(f[..n - 1]);
      BrightPixelsMembers(f[..n - 1]);
      BrightInRowMembers(f[n - 1], n - 1);
      BrightInRowIncreasing(f[n - 1], n - 1);
      forall i, j | 0 <= i < j < |last| ensures RowMajorBefore(last[i], last[j]) {
        assert last[i] in last && last[j] in last;
      }
      forall i, j | 0 <= i < |prev| && 0 <= j < |last| ensures prev[i].y < last[j].y {
        assert prev[i] in prev && last[j] in last;
        assert IsBright(f[..n - 1], prev[i].x, prev[i].y);
      }
      RowMajorConcat(prev, last);
      assert BrightPixels(f) == prev + last;
    }
    var ps := BrightPixels(f);
    forall i, j | 0 <= i < j < |ps| ensures ps[i] != ps[j] {
      assert RowMajorBefore(ps[i], ps[j]);
    }
  }

  /** The set of bright pixel positions of a frame. */
  function BrightSet(f: Frame): set<Point>
  {
    set y, x | 0 <= y < |f| && 0 <= x < |f[y]| && f[y][x] > Threshold :: Point(x, y)
  }

  /** A sequence without repetitions has as many elements as its set of elements. */
  lemma {:induction false} DistinctCardinality<T>(s: seq<T>)
    requires forall i, j :: 0 <= i < j < |s| ==> s[i] != s[j]
    ensures |set x | x in s| == |s|
  {
    if s != [] {
      var n := |s|;
      var t, last := s[..n - 1], s[n - 1];
      assert s == t + [last];
      DistinctCardinality(t);
      assert last !in t by {
        forall k | 0 <= k < |t| ensures t[k] != last {
          assert t[k] == s[k];
        }
      }
      assert (set x | x in s) == (set x | x in t) + {last};
    }
  }

  /** The bright-pixel list enumerates the bright set, so its length is the number of bright pixels. */
  lemma BrightPixelCount(f: Frame)
    ensures |BrightPixels(f)| == |BrightSet(f)|
  {
    var ps := BrightPixels(f);
    BrightPixelsRowMajor(f);
    BrightPixelsMembers(f);
    DistinctCardinality(ps);
    assert (set p | p in ps) == BrightSet(f);
  }

  function Sum(s: seq<int>): int
  {
    if s == [] then 0 else Sum(s[..|s| - 1]) + s[|s| - 1]
  }

  function Xs(ps: seq<Point>): (xs: seq<int>)
  {
    seq(|ps|, i requires 0 <= i < |ps| => ps[i].x)
  }

  function Ys(ps: seq<Point>): (ys: seq<int>)
  {
    seq(|ps|, i requires 0 <= i < |ps| => ps[i].y)
  }

  lemma {:induction false} SumConcat(a: seq<int>, b: seq<int>)
    ensures Sum(a + b) == Sum(a) + Sum(b)
  {
    if b != [] {
      assert (a + b)[..|a + b| - 1] == a + b[..|b| - 1];
      SumConcat(a, b[..|b| - 1]);
    } else {
      assert a + b == a;
    }
  }

  /** Sum of a sequence whose every element is `v`. */
  lemma {:induction false} SumConstant(s: seq<int>, v: int)
    requires forall i :: 0 <= i < |s| ==> s[i] == v
    ensures Sum(s) == |s| * v
  {
    if s != [] {
      SumConstant(s[..|s| - 1], v);
    }
  }

  lemma {:induction false} SumNonNegative(s: seq<int>)
    requires forall i :: 0 <= i < |s| ==> 0 <= s[i]
    ensures 0 <= Sum(s)
  {
    if s != [] {
      SumNonNegative(s[..|s| - 1]);
    }
  }

  /** A sum of |s| values in [lo, hi] lies in [|s|·lo, |s|·hi]. */
  lemma {:induction false} SumBounds(s: seq<int>, lo: int, hi: int)
    requires forall i :: 0 <= i < |s| ==> lo <= s[i] <= hi
    ensures |s| * lo <= Sum(s) <= |s| * hi
  {
    if s != [] {
      SumBounds(s[..|s| - 1], lo, hi);
    }
  }

  /** A positive multiple of at least one copy of d is at least d. */
  lemma {:induction false} MulAtLeast(d: int, k: int)
    requires d > 0 && k >= 1
    ensures d * k >= d
  {
    if k > 1 {
      MulAtLeast(d, k - 1);
    }
  }

  /** Multiplying by a positive d keeps the sign. */
  lemma MulSign(d: int, k: int)
    requires d > 0
    ensures d * k > 0 <==> k > 0
    ensures d * k < 0 <==> k < 0
  {
    if k >= 1 {
      MulAtLeast(d, k);
    } else if k <= -1 {
      MulAtLeast(d, -k);
    }
  }

  /** The floor of a mean of values in [lo, hi] lies in [lo, hi]. */
  lemma FloorMeanBounds(total: int, n: int, lo: int, hi: int)
    requires n > 0 && n * lo <= total <= n * hi
    ensures lo <= total / n <= hi
  {
    var q, r := total / n, total % n;
    assert total == n * q + r && 0 <= r < n;
    assert n * (lo - q - 1) < 0;
    MulSign(n, lo - q - 1);
    assert n * (q - hi) <= 0;
    MulSign(n, q - hi);
  }
  /** Floor division is determined by quotient and remainder. */
  lemma DivUnique(a: int, d: int, q: int, r: int)
    requires d > 0 && 0 <= r < d && a == d * q + r
    ensures a / d == q
  {
    var q', r' := a / d, a % d;
    assert a == d * q' + r' && 0 <= r' < d;
    assert d * (q - q' - 1) < 0;
    MulSign(d, q - q' - 1);
    assert d * (q' - q - 1) < 0;
    MulSign(d, q' - q - 1);
  }
  /** Scaling numerator and denominator by the same positive k leaves a floor quotient unchanged. */
  lemma DivCancel(a: int, n: int, k: int)
    requires a >= 0 && n > 0 && k > 0
    ensures (k * a) / (k * n) == a / n
  {
    var q, r := a / n, a % n;
    assert a == n * q + r && 0 <= r < n;
    assert k * a == (k * n) * q + k * r;
    MulSign(k, r);
    MulSign(k, n - r);
    assert 0 <= k * r < k * n;
    DivUnique(k * a, k * n, q, k * r);
  }

  /** The bright pixels of a row, split off its last pixel. */
  lemma BrightInRowLast(row: seq<Grey>, y: int)
    requires row != []
    ensures BrightInRow(row, y) == BrightInRow(row[..|row| - 1], y) + BrightTail(row, y)
  {
  }

  /** The row sums of a thresholded row, split off its last pixel. */
  lemma ThresholdRowLast(row: seq<Grey>)
    requires row != []
    ensures var n := |row|;
      && RowSum(ThresholdRow(row)) == RowSum(ThresholdRow(row[..n - 1])) + Binarize(row[n - 1])
      && RowXSum(ThresholdRow(row)) == RowXSum(ThresholdRow(row[..n - 1])) + (n - 1) * Binarize(row[n - 1])
  {
    var n := |row|;
    var t := ThresholdRow(row);
    assert t[..n - 1] == ThresholdRow(row[..n - 1]);
  }

  /** The coordinate sums of a concatenation of pixel lists. */
  lemma CoordinateSumsConcat(a: seq<Point>, b: seq<Point>)
    ensures Sum(Xs(a + b)) == Sum(Xs(a)) + Sum(Xs(b))
    ensures Sum(Ys(a + b)) == Sum(Ys(a)) + Sum(Ys(b))
  {
    assert Xs(a + b) == Xs(a) + Xs(b);
    assert Ys(a + b) == Ys(a) + Ys(b);
    SumConcat(Xs(a), Xs(b));
    SumConcat(Ys(a), Ys(b));
  }

  /** Summing the thresholded row y counts its bright pixels, 255 each. */
  lemma {:induction false} RowSumOfBright(row: seq<Grey>, y: int)
    ensures RowSum(ThresholdRow(row)) == MaxValue * |BrightInRow(row, y)|
  {
    if row != [] {
      RowSumOfBright(row[..|row| - 1], y);
      ThresholdRowLast(row);
      BrightInRowLast(row, y);
    }
  }

  /** The first x-moment of the thresholded row y is 255 times the sum of its bright columns. */
  lemma {:induction false} RowXSumOfBright(row: seq<Grey>, y: int)
    ensures RowXSum(ThresholdRow(row)) == MaxValue * Sum(Xs(BrightInRow(row, y)))
  {
    if row != [] {
      var n := |row|;
      var ps, tail := BrightInRow(row[..n - 1], y), BrightTail(row, y);
      RowXSumOfBright(row[..n - 1], y);
      ThresholdRowLast(row);
      BrightInRowLast(row, y);
      CoordinateSumsConcat(ps, tail);
      var b := Binarize(row[n - 1]);
      if row[n - 1] > Threshold {
        assert b == MaxValue;
        assert (n - 1) * b == MaxValue * (n - 1);
        assert Xs(tail) == [n - 1];
        assert Sum([n - 1]) == n - 1 by { assert [n - 1][..0] == []; }
      } else {
        assert b == 0;
        assert (n - 1) * b == 0;
        assert Xs(tail) == [];
      }
    }
  }

  /** Every bright pixel of row y has y as its row, so their row sum is y times their count. */
  lemma {:induction false} RowYSumOfBright(row: seq<Grey>, y: int)
    ensures Sum(Ys(BrightInRow(row, y))) == y * |BrightInRow(row, y)|
  {
    var ps := BrightInRow(row, y);
    BrightInRowMembers(row, y);
    forall i | 0 <= i < |ps| ensures Ys(ps)[i] == y {
      assert ps[i] in ps;
    }
    SumConstant(Ys(ps), y);
  }

  /** The bright pixels of a frame, split off its last row. */
  lemma BrightPixelsLast(f: Frame)
    requires f != []
    ensures BrightPixels(f) == BrightPixels(f[..|f| - 1]) + BrightInRow(f[|f| - 1], |f| - 1)
  {
  }

  /** The moments of an image, split off its last row. */
  lemma ImageMomentsLast(img: Frame)
    requires img != []
    ensures var n := |img|;
      var m := ImageMoments(img[..n - 1]);
      ImageMoments(img) == Moments(m.m00 + RowSum(img[n - 1]), m.m10 + RowXSum(img[n - 1]), m.m01 + (n - 1) * RowSum(img[n - 1]))
  {
  }

  lemma MulScale(a: int, b: int, k: int)
    ensures a * (k * b) == k * (a * b)
  {
  }

  /** The three moment terms that thresholded row y adds, in terms of its bright pixels. */
  lemma ThresholdedRowMoments(row: seq<Grey>, y: int)
    ensures var b, r := BrightInRow(row, y), ThresholdRow(row);
      && RowSum(r) == MaxValue * |b|
      && RowXSum(r) == MaxValue * Sum(Xs(b))
      && y * RowSum(r) == MaxValue * Sum(Ys(b))
  {
    RowSumOfBright(row, y);
    RowXSumOfBright(row, y);
    RowYSumOfBright(row, y);
    MulScale(y, |BrightInRow(row, y)|, MaxValue);
  }

  /** Adding one row's terms to the moments of the rows above it gives the moments of the joined bright lists. */
  lemma CombineMoments(m: Moments, rs: int, rx: int, y: int, a: seq<Point>, b: seq<Point>)
    requires m == Moments(MaxValue * |a|, MaxValue * Sum(Xs(a)), MaxValue * Sum(Ys(a)))
    requires rs == MaxValue * |b| && rx == MaxValue * Sum(Xs(b)) && y * rs == MaxValue * Sum(Ys(b))
    ensures Moments(m.m00 + rs, m.m10 + rx, m.m01 + y * rs)
         == Moments(MaxValue * |a + b|, MaxValue * Sum(Xs(a + b)), MaxValue * Sum(Ys(a + b)))
  {
    CoordinateSumsConcat(a, b);
  }

  /** One induction step of MomentsOfThresholded: the last row of `t` thresholds the last row of `f`. */
  lemma MomentsOfThresholdedStep(f: Frame, t: Frame)
    requires |t| == |f| > 0
    requires t[|t| - 1] == ThresholdRow(f[|f| - 1])
    requires var a := BrightPixels(f[..|f| - 1]);
      ImageMoments(t[..|t| - 1]) == Moments(MaxValue * |a|, MaxValue * Sum(Xs(a)), MaxValue * Sum(Ys(a)))
    ensures var ps := BrightPixels(f);
      ImageMoments(t) == Moments(MaxValue * |ps|, MaxValue * Sum(Xs(ps)), MaxValue * Sum(Ys(ps)))
  {
    var n := |f|;
    var a, b := BrightPixels(f[..n - 1]), BrightInRow(f[n - 1], n - 1);
    var row, m := t[n - 1], ImageMoments(t[..n - 1]);
    ImageMomentsLast(t);
    ThresholdedRowMoments(f[n - 1], n - 1);
    BrightPixelsLast(f);
    CombineMoments(m, RowSum(row), RowXSum(row), n - 1, a, b);
  }

  /** The moments of any row-by-row thresholding `t` of `f`, in terms of the bright pixels of `f`. */
  lemma {:induction false} MomentsOfThresholded(f: Frame, t: Frame)
    requires |t| == |f|
    requires forall y :: 0 <= y < |f| ==> t[y] == ThresholdRow(f[y])
    ensures var ps := BrightPixels(f);
      ImageMoments(t) == Moments(MaxValue * |ps|, MaxValue * Sum(Xs(ps)), MaxValue * Sum(Ys(ps)))
  {
    if f != [] {
      var n := |f|;
      var fp, tp := f[..n - 1], t[..n - 1];
      forall y | 0 <= y < n - 1 ensures tp[y] == ThresholdRow(fp[y]) {
        assert tp[y] == t[y] && fp[y] == f[y];
      }
      MomentsOfThresholded(fp, tp);
      MomentsOfThresholdedStep(f, t);
    }
  }

  /** The moments cv2 computes on the binary image are 255 times the count and coordinate sums of the bright pixels. */
  lemma MomentsOfBright(f: Frame)
    ensures var ps := BrightPixels(f);
      ImageMoments(ThresholdFrame(f)) == Moments(MaxValue * |ps|, MaxValue * Sum(Xs(ps)), MaxValue * Sum(Ys(ps)))
  {
    MomentsOfThresholded(f, ThresholdFrame(f));
  }

  /**
   * The centroid of a frame is (⌊Σx / n⌋, ⌊Σy / n⌋) over its n bright pixels, and
   * absent exactly when there is none: the factor 255 cancels and int() of a
   * non-negative quotient is its floor.
   */
  lemma CentroidIsMeanOfBright(f: Frame)
    ensures var ps := BrightPixels(f);
      DetectCentroid(f) == if |ps| == 0 then None else Some(Point(Sum(Xs(ps)) / |ps|, Sum(Ys(ps)) / |ps|))
  {
    var ps := BrightPixels(f);
    MomentsOfBright(f);
    BrightPixelsMembers(f);
    if |ps| > 0 {
      forall i | 0 <= i < |ps| ensures 0 <= Xs(ps)[i] && 0 <= Ys(ps)[i] {
        assert ps[i] in ps;
      }
      SumNonNegative(Xs(ps));
      SumNonNegative(Ys(ps));
      DivCancel(Sum(Xs(ps)), |ps|, MaxValue);
      DivCancel(Sum(Ys(ps)), |ps|, MaxValue);
    }
  }

  // ---------------------------------------------------------------------------
  // Properties of the per-frame step
  // ---------------------------------------------------------------------------

  /** A frame yields a point exactly when at least one pixel is above the threshold. */
  lemma DetectsIffBright(f: Frame)
    ensures DetectCentroid(f).Some? <==> HasBright(f)
  {
    CentroidIsMeanOfBright(f);
    var ps := BrightPixels(f);
    BrightPixelsMembers(f);
    if HasBright(f) {
      var y, x :| IsBright(f, x, y);
      assert Point(x, y) in ps;
    }
    if |ps| > 0 {
      assert ps[0] in ps;
      assert IsBright(f, ps[0].x, ps[0].y);
    }
  }

  /** Any box that holds every bright pixel also holds the centroid. */
  lemma CentroidInBox(f: Frame, lo: Point, hi: Point)
    requires forall y, x :: IsBright(f, x, y) ==> lo.x <= x <= hi.x && lo.y <= y <= hi.y
    ensures DetectCentroid(f).Some? ==>
      var c := DetectCentroid(f).value;
      lo.x <= c.x <= hi.x && lo.y <= c.y <= hi.y
  {
    CentroidIsMeanOfBright(f);
    var ps := BrightPixels(f);
    BrightPixelsMembers(f);
    if |ps| > 0 {
      forall i | 0 <= i < |ps|
        ensures lo.x <= Xs(ps)[i] <= hi.x && lo.y <= Ys(ps)[i] <= hi.y
      {
        assert ps[i] in ps;
      }
      SumBounds(Xs(ps), lo.x, hi.x);
      SumBounds(Ys(ps), lo.y, hi.y);
      FloorMeanBounds(Sum(Xs(ps)), |ps|, lo.x, hi.x);
      FloorMeanBounds(Sum(Ys(ps)), |ps|, lo.y, hi.y);
    }
  }

  /** The centroid of a width × height frame is a pixel of that frame. */
  lemma CentroidInFrame(f: Frame, width: nat)
    requires Rectangular(f, width)
    ensures DetectCentroid(f).Some? ==>
      var c := DetectCentroid(f).value;
      0 <= c.x < width && 0 <= c.y < |f|
  {
    CentroidInBox(f, Point(0, 0), Point(width - 1, |f| - 1));
  }

  /** With exactly one bright pixel, the centroid is that pixel's (column, row). */
  lemma SingleBrightPixel(f: Frame, x0: int, y0: int)
    requires IsBright(f, x0, y0)
    requires forall y, x :: IsBright(f, x, y) ==> x == x0 && y == y0
    ensures DetectCentroid(f) == Some(Point(x0, y0))
  {
    DetectsIffBright(f);
    CentroidInBox(f, Point(x0, y0), Point(x0, y0));
  }

  /** The centroid depends only on which pixels are above the threshold. */
  lemma SameBrightPixelsSameCentroid(f: Frame, g: Frame)
    requires |f| == |g|
    requires forall y :: 0 <= y < |f| ==> |f[y]| == |g[y]|
    requires forall y, x :: 0 <= y < |f| && 0 <= x < |f[y]| ==> (f[y][x] > Threshold <==> g[y][x] > Threshold)
    ensures DetectCentroid(f) == DetectCentroid(g)
  {
    forall y | 0 <= y < |f|
      ensures ThresholdRow(f[y]) == ThresholdRow(g[y])
    {
      forall x | 0 <= x < |f[y]|
        ensures ThresholdRow(f[y])[x] == ThresholdRow(g[y])[x]
      {
        assert Binarize(f[y][x]) == Binarize(g[y][x]);
      }
    }
    assert ThresholdFrame(f) == ThresholdFrame(g);
  }

  /** The frame `f` with the pixel at column x, row y set to v. */
  function SetPixel(f: Frame, x: int, y: int, v: Grey): Frame
    requires 0 <= y < |f| && 0 <= x < |f[y]|
  {
    var row: seq<Grey> := f[y][x := v];
    f[y := row]
  }

  /** Changing one pixel without crossing the threshold leaves the centroid unchanged. */
  lemma PixelChangeOnSameSide(f: Frame, x: int, y: int, v: Grey)
    requires 0 <= y < |f| && 0 <= x < |f[y]|
    requires v > Threshold <==> f[y][x] > Threshold
    ensures DetectCentroid(SetPixel(f, x, y, v)) == DetectCentroid(f)
  {
    SameBrightPixelsSameCentroid(SetPixel(f, x, y, v), f);
  }

  // ---------------------------------------------------------------------------
  // The frame loop
  // ---------------------------------------------------------------------------

  /** The points a sequence of successfully read frames contributes, one per frame at most, in frame order. */
  function MovementPath(frames: seq<Frame>): (path: seq<Point>)
    ensures |path| <= |frames|
  {
    if frames == [] then []
    else
      var rest := MovementPath(frames[..|frames| - 1]);
      match DetectCentroid(frames[|frames| - 1])
      case Some(c) => rest + [c]
      case None => rest
  }

  /**
   * The video source as the loop sees it: whether cv2.VideoCapture opened it, and
   * the result of each successive cap.read() (None for a failed read). Reads past
   * the end of `results` fail, as at the end of a stream.
   */
  datatype VideoCapture = VideoCapture(isOpened: bool, results: seq<Option<Frame>>)

  /** The result of the i-th call of cap.read(). */
  function Read(cap: VideoCapture, i: nat): Option<Frame>
  {
    if i < |cap.results| then cap.results[i] else None
  }

  /** The frames returned before the first failed read. */
  function FramesBeforeFailure(results: seq<Option<Frame>>): (fs: seq<Frame>)
    ensures |fs| <= |results|
    ensures forall k :: 0 <= k < |fs| ==> results[k] == Some(fs[k])
    ensures |fs| < |results| ==> results[|fs|].None?
  {
    if results == [] || results[0].None? then [] else [results[0].value] + FramesBeforeFailure(results[1..])
  }

  /** The frames the loop processes: none when the capture did not open. */
  function FramesRead(cap: VideoCapture): (fs: seq<Frame>)
    ensures |fs| <= |cap.results|
  {
    if cap.isOpened then FramesBeforeFailure(cap.results) else []
  }

  /** The frames before the first failure are determined by the three facts FramesBeforeFailure promises. */
  lemma FramesBeforeFailureUnique(results: seq<Option<Frame>>, fs: seq<Frame>)
    requires |fs| <= |results|
    requires forall k :: 0 <= k < |fs| ==> results[k] == Some(fs[k])
    requires |fs| < |results| ==> results[|fs|].None?
    ensures FramesBeforeFailure(results) == fs
  {
    var gs := FramesBeforeFailure(results);
    assert |gs| == |fs|;
    assert forall k :: 0 <= k < |fs| ==> gs[k] == fs[k] by {
      forall k | 0 <= k < |fs| ensures gs[k] == fs[k] {
        assert results[k] == Some(gs[k]) && results[k] == Some(fs[k]);
      }
    }
  }

  /**
   * analyze_video_for_movement up to cap.release(): read frames until a read
   * fails, appending the centroid of every frame that has bright pixels.
   */
  method AnalyzeVideoForMovement(cap: VideoCapture) returns (path: seq<Point>)
    ensures path == MovementPath(FramesRead(cap))
    ensures |path| <= |FramesRead(cap)|
    ensures !cap.isOpened ==> path == []
  {
    path := [];
    ghost var processed: seq<Frame> := [];
    var i := 0;
    while cap.isOpened
      invariant 0 <= i <= |cap.results|
      invariant cap.isOpened || i == 0
      invariant |processed| == i
      invariant forall k :: 0 <= k < i ==> cap.results[k] == Some(processed[k])
      invariant path == MovementPath(processed)
      decreases |cap.results| - i
    {
      var frame := Read(cap, i);
      if frame.None? {
        FramesBeforeFailureUnique(cap.results, processed);
        break;
      }
      assert processed + [frame.value] == (processed + [frame.value])[..i] + [frame.value];
      processed := processed + [frame.value];
      i := i + 1;
      var c := DetectCentroid(frame.value);
      if c.Some? {
        path := path + [c.value];
      }
    }
  }

  // ---------------------------------------------------------------------------
  // Properties of the path
  // ---------------------------------------------------------------------------

  /** Frames contribute to the path in the order they are read: the path of a concatenation is the concatenation of the paths. */
  lemma {:induction false} MovementPathAppend(a: seq<Frame>, b: seq<Frame>)
    ensures MovementPath(a + b) == MovementPath(a) + MovementPath(b)
  {
    if b == [] {
      assert a + b == a;
    } else {
      assert (a + b)[..|a + b| - 1] == a + b[..|b| - 1];
      MovementPathAppend(a, b[..|b| - 1]);
    }
  }

  /** A single frame adds its centroid when it has a bright pixel, and nothing otherwise. */
  lemma MovementPathOfFrame(f: Frame)
    ensures HasBright(f) ==> DetectCentroid(f).Some? && MovementPath([f]) == [DetectCentroid(f).value]
    ensures !HasBright(f) ==> MovementPath([f]) == []
  {
    DetectsIffBright(f);
    assert [f][..0] == [];
  }

  /** The per-frame detections, one per frame. */
  function Detections(frames: seq<Frame>): (ds: seq<Option<Point>>)
    ensures |ds| == |frames|
  {
    seq(|frames|, i requires 0 <= i < |frames| => DetectCentroid(frames[i]))
  }

  /** The values of the present entries, in order. */
  function Somes<T>(opts: seq<Option<T>>): seq<T>
  {
    if opts == [] then []
    else
      var rest := Somes(opts[..|opts| - 1]);
      match opts[|opts| - 1]
      case Some(v) => rest + [v]
      case None => rest
  }

  /** The movement path is the list of present detections. */
  lemma {:induction false} MovementPathIsSomes(frames: seq<Frame>)
    ensures MovementPath(frames) == Somes(Detections(frames))
  {
    if frames != [] {
      var n := |frames|;
      var ds := Detections(frames);
      MovementPathIsSomes(frames[..n - 1]);
      assert ds[..n - 1] == Detections(frames[..n - 1]);
      var d := DetectCentroid(frames[n - 1]);
      assert ds[n - 1] == d;
      assert Somes(ds) == Somes(ds[..n - 1]) + (if d.Some? then [d.value] else []);
      assert MovementPath(frames) == MovementPath(frames[..n - 1]) + (if d.Some? then [d.value] else []);
    }
  }

  /** `idx` lists, increasing, the positions of the present entries, and Somes lists their values. */
  lemma {:induction false} SomesIndices<T>(opts: seq<Option<T>>) returns (idx: seq<nat>)
    ensures |idx| == |Somes(opts)|
    ensures forall j :: 0 <= j < |idx| ==> idx[j] < |opts| && opts[idx[j]] == Some(Somes(opts)[j])
    ensures forall j, k :: 0 <= j < k < |idx| ==> idx[j] < idx[k]
    ensures forall i :: 0 <= i < |opts| ==> (opts[i].Some? <==> i in idx)
  {
    if opts == [] {
      idx := [];
    } else {
      var n := |opts|;
      var init := opts[..n - 1];
      var prev := SomesIndices(init);
      assert forall i :: 0 <= i < n - 1 ==> init[i] == opts[i];
      if opts[n - 1].Some? {
        idx := prev + [n - 1];
        assert Somes(opts) == Somes(init) + [opts[n - 1].value];
        forall i | 0 <= i < n ensures opts[i].Some? <==> i in idx {
          assert i in idx <==> i in prev || i == n - 1;
        }
      } else {
        idx := prev;
        assert Somes(opts) == Somes(init);
      }
    }
  }

  /**
   * The path lists, in increasing frame order, the centroids of exactly the
   * frames with a detection: `idx` gives the frame each point comes from.
   */
  lemma MovementPathFrameOrder(frames: seq<Frame>) returns (idx: seq<nat>)
    ensures |idx| == |MovementPath(frames)|
    ensures forall j :: 0 <= j < |idx| ==> idx[j] < |frames| && DetectCentroid(frames[idx[j]]) == Some(MovementPath(frames)[j])
    ensures forall j, k :: 0 <= j < k < |idx| ==> idx[j] < idx[k]
    ensures forall i :: 0 <= i < |frames| ==> (DetectCentroid(frames[i]).Some? <==> i in idx)
  {
    MovementPathIsSomes(frames);
    idx := SomesIndices(Detections(frames));
  }

  /** The frames that contribute a point are exactly those with a pixel above the threshold. */
  lemma MovementPathDetectedFrames(frames: seq<Frame>) returns (idx: seq<nat>)
    ensures |idx| == |MovementPath(frames)|
    ensures forall j :: 0 <= j < |idx| ==> idx[j] < |frames| && DetectCentroid(frames[idx[j]]) == Some(MovementPath(frames)[j])
    ensures forall j, k :: 0 <= j < k < |idx| ==> idx[j] < idx[k]
    ensures forall i :: 0 <= i < |frames| ==> (HasBright(frames[i]) <==> i in idx)
  {
    idx := MovementPathFrameOrder(frames);
    forall i | 0 <= i < |frames| ensures HasBright(frames[i]) <==> i in idx {
      DetectsIffBright(frames[i]);
    }
  }

  /** Every point of the path of width × height frames is a pixel of those frames. */
  lemma {:induction false} PathWithinFrames(frames: seq<Frame>, width: nat, height: nat)
    requires forall k :: 0 <= k < |frames| ==> Rectangular(frames[k], width) && |frames[k]| == height
    ensures forall p :: p in MovementPath(frames) ==> 0 <= p.x < width && 0 <= p.y < height
  {
    if frames != [] {
      var n := |frames|;
      PathWithinFrames(frames[..n - 1], width, height);
      CentroidInFrame(frames[n - 1], width);
    }
  }

  /** Reads after the first failed one contribute nothing; an open source whose reads all succeed yields all its frames. */
  lemma {:induction false} StopsAtFirstFailure(isOpened: bool, pre: seq<Option<Frame>>, post: seq<Option<Frame>>)
    requires forall k :: 0 <= k < |pre| ==> pre[k].Some?
    ensures FramesRead(VideoCapture(isOpened, pre + [None] + post)) == FramesRead(VideoCapture(isOpened, pre))
    ensures isOpened ==> |FramesRead(VideoCapture(isOpened, pre))| == |pre|
    ensures MovementPath(FramesRead(VideoCapture(isOpened, pre + [None] + post)))
         == MovementPath(FramesRead(VideoCapture(isOpened, pre)))
  {
    if isOpened {
      var fs := FramesBeforeFailure(pre);
      assert |fs| == |pre|;
      FramesBeforeFailureUnique(pre + [None] + post, fs);
    }
  }
}
