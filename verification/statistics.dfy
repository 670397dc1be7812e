/**
 * The statistics the detector computes over its window, over real numbers:
 * sums and means, the causal rolling mean (a window of `w` points that
 * accepts fewer points at the start of the stream), the sample variance
 * (divisor n - 1), and bounds on how far the newest point can lie from the
 * mean of a window that contains it.
 */
module Statistics {

  /** Sum of a sequence, taken from the back so that prefixes unfold easily. */
  function Sum(s: seq<real>): real
  {
    if s == [] then 0.0 else Sum(s[..|s| - 1]) + s[|s| - 1]
  }

  /**
   * Product of two reals, with the sign rules the solver is told about
   * through this contract rather than left to rediscover.
   */
  function Product(a: real, b: real): (r: real)
    ensures a > 0.0 && b > 0.0 ==> r > 0.0
    ensures a < 0.0 && b < 0.0 ==> r > 0.0
  {
    a * b
  }

  /** The square of a real: never negative, and zero only at zero. */
  function Square(x: real): (r: real)
    ensures r >= 0.0
    ensures x != 0.0 ==> r > 0.0
  {
    Product(x, x)
  }

  /** Sum of squares of a sequence. */
  function SumSquares(s: seq<real>): (r: real)
    ensures r >= 0.0
  {
    if s == [] then 0.0 else SumSquares(s[..|s| - 1]) + Square(s[|s| - 1])
  }

  /** Arithmetic mean of a non-empty sequence. */
  function Mean(s: seq<real>): real
    requires |s| > 0
  {
    Sum(s) / (|s| as real)
  }

  /** Each element minus `c`. */
  function Deviations(s: seq<real>, c: real): (r: seq<real>)
    ensures |r| == |s|
  {
    seq(|s|, i requires 0 <= i < |s| => s[i] - c)
  }

  /** Sample variance (divisor n - 1), the square of the sample standard deviation. */
  function SampleVariance(s: seq<real>): (v: real)
    requires |s| >= 2
    ensures v >= 0.0
  {
    SumSquares(Deviations(s, Mean(s))) / ((|s| - 1) as real)
  }

  /** The reference smoothing: element i is the mean of the first i + 1 values. */
  function PrefixMeans(s: seq<real>): (r: seq<real>)
    ensures |r| == |s|
  {
    seq(|s|, i requires 0 <= i < |s| => Mean(s[..i + 1]))
  }

  /** The last running mean is the mean of the whole sequence. */
  lemma PrefixMeansLast(s: seq<real>)
    requires |s| > 0
    ensures PrefixMeans(s)[|s| - 1] == Mean(s)
  {
    assert s[..|s|] == s;
  }

  /** First index of the trailing window of span `w` that ends at index `i`. */
  function WindowStart(i: int, w: int): int
  {
    if i - w + 1 < 0 then 0 else i - w + 1
  }

  /**
   * Causal rolling mean of span `w` that needs only one point: element i is
   * the mean of the last min(w, i + 1) values ending at i. On a sequence no
   * longer than the span it coincides with the prefix means.
   */
  function RollingMean(s: seq<real>, w: int): (r: seq<real>)
    requires w >= 1
    ensures |r| == |s|
    ensures |s| <= w ==> r == PrefixMeans(s)
  {
    seq(|s|, i requires 0 <= i < |s| => Mean(s[WindowStart(i, w)..i + 1]))
  }

  /** The sum of `n` copies of one value. */
  lemma {:induction false} SumOfConstant(s: seq<real>, c: real)
    requires forall i :: 0 <= i < |s| ==> s[i] == c
    ensures Sum(s) == (|s| as real) * c
  {
    if s != [] {
      SumOfConstant(s[..|s| - 1], c);
    }
  }

  /** Shifting every element by `c` shifts the sum by n * c. */
  lemma {:induction false} SumOfDeviations(s: seq<real>, c: real)
    ensures Sum(Deviations(s, c)) == Sum(s) - (|s| as real) * c
  {
    if s != [] {
      var n := |s|;
      assert Deviations(s, c)[..n - 1] == Deviations(s[..n - 1], c);
      SumOfDeviations(s[..n - 1], c);
    }
  }

  /** The deviations from the mean sum to zero. */
  lemma DeviationsFromMeanSumToZero(s: seq<real>)
    requires |s| > 0
    ensures Sum(Deviations(s, Mean(s))) == 0.0
  {
    SumOfDeviations(s, Mean(s));
  }

  /** A sum of squares is zero exactly when every element is zero. */
  lemma {:induction false} SumSquaresZero(s: seq<real>)
    ensures SumSquares(s) == 0.0 <==> forall i :: 0 <= i < |s| ==> s[i] == 0.0
  {
    if s != [] {
      var n := |s|;
      var p := s[..n - 1];
      SumSquaresZero(p);
      assert SumSquares(s) == SumSquares(p) + Square(s[n - 1]);
      if SumSquares(s) == 0.0 {
        forall i | 0 <= i < n ensures s[i] == 0.0 {
          if i < n - 1 {
            assert p[i] == s[i];
          }
        }
      }
    }
  }

  /** The mean of a constant sequence is that constant. */
  lemma MeanOfConstant(s: seq<real>, c: real)
    requires |s| > 0
    requires forall i :: 0 <= i < |s| ==> s[i] == c
    ensures Mean(s) == c
  {
    SumOfConstant(s, c);
  }

  /**
   * The sample variance is zero exactly when all values are equal: the
   * degenerate case in which the standard deviation vanishes.
   */
  lemma VarianceZeroIffConstant(s: seq<real>)
    requires |s| >= 2
    ensures SampleVariance(s) == 0.0 <==> forall i :: 0 <= i < |s| ==> s[i] == s[0]
  {
    var m := Mean(s);
    var d := Deviations(s, m);
    SumSquaresZero(d);
    if forall i :: 0 <= i < |s| ==> s[i] == s[0] {
      MeanOfConstant(s, s[0]);
      assert forall i :: 0 <= i < |s| ==> d[i] == 0.0;
    }
    if SampleVariance(s) == 0.0 {
      assert SumSquares(d) == 0.0;
      assert forall i :: 0 <= i < |s| ==> s[i] == m by {
        forall i | 0 <= i < |s| ensures s[i] == m {
          assert d[i] == 0.0;
        }
      }
    }
  }

  /** A constant sequence has constant prefix means. */
  lemma PrefixMeansOfConstant(s: seq<real>, c: real)
    requires forall i :: 0 <= i < |s| ==> s[i] == c
    ensures forall i :: 0 <= i < |s| ==> PrefixMeans(s)[i] == c
  {
    forall i | 0 <= i < |s| ensures PrefixMeans(s)[i] == c {
      MeanOfConstant(s[..i + 1], c);
    }
  }

  /** Dividing both sides of an inequality by a positive factor. */
  lemma CancelPositiveFactor(a: real, b: real, k: real)
    requires k > 0.0
    requires k * a <= k * b
    ensures a <= b
  {
  }

  /**
   * The cross term of the Cauchy-Schwarz step: if sum^2 <= m * sq with m > 0,
   * then 2 * sum * x <= sq + m * x^2, because (sum - m * x)^2 >= 0.
   */
  lemma CrossTermBound(sum: real, sq: real, m: real, x: real)
    requires m > 0.0
    requires Square(sum) <= m * sq
    ensures 2.0 * sum * x <= sq + m * Square(x)
  {
    var e := sum - m * x;
    assert Square(e) >= 0.0;
    assert Square(e) == e * e;
    assert Square(sum) == sum * sum;
    assert Square(x) == x * x;
    assert e * e == sum * sum - 2.0 * m * sum * x + m * m * x * x;
    assert m * (2.0 * sum * x) <= m * sq + m * (m * x * x);
    assert m * sq + m * (m * x * x) == m * (sq + m * x * x);
    CancelPositiveFactor(2.0 * sum * x, sq + m * Square(x), m);
  }

  /** One induction step of Cauchy-Schwarz: extending m terms by one more term x. */
  lemma SquaredSumStep(sum: real, sq: real, m: real, x: real)
    requires m >= 0.0
    requires Square(sum) <= m * sq
    requires m == 0.0 ==> sum == 0.0 && sq == 0.0
    ensures Square(sum + x) <= (m + 1.0) * (sq + Square(x))
  {
    if m > 0.0 {
      CrossTermBound(sum, sq, m, x);
    }
    assert Square(sum + x) == Square(sum) + 2.0 * sum * x + Square(x) by {
      assert Square(sum + x) == (sum + x) * (sum + x);
      assert Square(sum) == sum * sum;
      assert Square(x) == x * x;
    }
    assert (m + 1.0) * (sq + Square(x)) == m * sq + sq + m * Square(x) + Square(x);
  }

  /** Cauchy-Schwarz for sums: the square of a sum is at most n times the sum of squares. */
  lemma {:induction false} SquaredSumBound(a: seq<real>)
    ensures Square(Sum(a)) <= (|a| as real) * SumSquares(a)
  {
    if a != [] {
      var m := |a| - 1;
      var p := a[..m];
      SquaredSumBound(p);
      if m == 0 {
        assert p == [];
      }
      SquaredSumStep(Sum(p), SumSquares(p), m as real, a[m]);
    }
  }

  /**
   * Samuelson's inequality for the newest element: in a sequence of n >= 2
   * values with mean m, n * (last - m)^2 <= (n - 1) * sum of (x - m)^2.
   */
  lemma LastDeviationBound(s: seq<real>)
    requires |s| >= 2
    ensures var n, m := |s|, Mean(s);
      (n as real) * Square(s[n - 1] - m) <= ((n - 1) as real) * SumSquares(Deviations(s, m))
  {
    var n, m := |s|, Mean(s);
    var d := Deviations(s, m);
    var p := d[..n - 1];
    var x := d[n - 1];
    DeviationsFromMeanSumToZero(s);
    assert Sum(d) == Sum(p) + x;
    assert Sum(p) == -x;
    SquaredSumBound(p);
    assert Square(Sum(p)) == Square(x) by {
      assert Square(-x) == (-x) * (-x);
      assert Square(x) == x * x;
    }
    assert SumSquares(d) == SumSquares(p) + Square(x);
  }

  /** A product of non-negative reals is non-negative. */
  lemma ProductNonNegative(a: real, b: real)
    requires a >= 0.0 && b >= 0.0
    ensures a * b >= 0.0
  {
    if a > 0.0 && b > 0.0 {
      assert Product(a, b) > 0.0;
    }
  }

  /** Multiplying both sides by a non-negative factor keeps the order. */
  lemma ScaleMonotone(a: real, b: real, c: real)
    requires a <= b && c >= 0.0
    ensures a * c <= b * c
  {
    ProductNonNegative(b - a, c);
    assert (b - a) * c == b * c - a * c;
  }

  /** The gap between the two sides of SamuelsonBoundMonotone, factored. */
  lemma SamuelsonGap(n: real, w: real)
    ensures (w - 1.0) * (w - 1.0) * n - (n - 1.0) * (n - 1.0) * w == (w - n) * (n * w - 1.0)
  {
  }

  /**
   * The ratio (n - 1)^2 / n grows with n: if a threshold clears it for the
   * full span `w`, it clears it for every shorter window too.
   */
  lemma SamuelsonBoundMonotone(n: int, w: int, t: real)
    requires 1 <= n <= w
    requires t * t * (w as real) >= ((w - 1) as real) * ((w - 1) as real)
    ensures t * t * (n as real) >= ((n - 1) as real) * ((n - 1) as real)
  {
    var nr, wr, tt := n as real, w as real, t * t;
    var a, b := (nr - 1.0) * (nr - 1.0), (wr - 1.0) * (wr - 1.0);
    assert ((n - 1) as real) == nr - 1.0 && ((w - 1) as real) == wr - 1.0;
    ScaleMonotone(1.0, wr, nr);
    ProductNonNegative(wr - nr, nr * wr - 1.0);
    SamuelsonGap(nr, wr);
    assert a * wr <= b * nr;
    ScaleMonotone(b, tt * wr, nr);
    assert wr * a <= wr * (tt * nr);
    CancelPositiveFactor(a, tt * nr, wr);
  }
}
