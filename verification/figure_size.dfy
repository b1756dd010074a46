/**
 * The figure-size rule shared by `MatplotlibGrapher.plot` and `save_plot`:
 * the resolution width:height is reduced to lowest terms (as
 * `fractions.Fraction` does), halved while either side exceeds 10, then scaled
 * by 1.5 while either side is below 5. The axes span [0, width] x [0, height].
 */
module FigureSize {
  import opened Wrappers

  function Abs(x: int): nat {
    if x < 0 then -x else x
  }

  /** `math.gcd` on non-negative arguments, by Euclid's algorithm. */
  function Gcd(a: nat, b: nat): nat
    decreases b
  {
    if b == 0 then a else Gcd(b, a % b)
  }

  /** b^k over the reals. */
  function Pow(b: real, k: nat): real {
    if k == 0 then 1.0 else b * Pow(b, k - 1)
  }

  /** Multiplying by a positive factor keeps the order. */
  lemma MulMono(x: int, y: int, b: int)
    requires x <= y && b > 0
    ensures x * b <= y * b
  {
    assert y * b - x * b == (y - x) * b;
  }

  /** Division with remainder has one answer: any q, r with a = q*b + r and 0 <= r < b are a / b and a % b. */
  lemma DivModUnique(a: int, b: int, q: int, r: int)
    requires b > 0 && a == q * b + r && 0 <= r < b
    ensures a / b == q && a % b == r
  {
    var q' := a / b;
    var r' := a % b;
    assert a == q' * b + r';
    if q' < q {
      MulMono(q' + 1, q, b);
    } else if q < q' {
      MulMono(q + 1, q', b);
    }
  }

  /** A multiple of g plus a multiple of g is a multiple of g. */
  lemma MultipleSum(g: int, x: int, y: int, q: int)
    requires g > 0 && x % g == 0 && y % g == 0
    ensures (q * x + y) % g == 0
  {
    var a := x / g;
    var b := y / g;
    assert x == a * g && y == b * g;
    assert q * x == (q * a) * g;
    assert q * x + y == (q * a + b) * g;
    DivModUnique(q * x + y, g, q * a + b, 0);
  }

  /** The gcd of two numbers, not both zero, is positive and divides both. */
  lemma {:induction false} GcdDivides(a: nat, b: nat)
    requires a > 0 || b > 0
    ensures Gcd(a, b) > 0 && a % Gcd(a, b) == 0 && b % Gcd(a, b) == 0
    decreases b
  {
    if b > 0 {
      var g := Gcd(b, a % b);
      GcdDivides(b, a % b);
      assert a == (a / b) * b + a % b;
      MultipleSum(g, b, a % b, a / b);
    }
  }

  /** Every common divisor of a and b divides Gcd(a, b): it is the greatest common divisor. */
  lemma {:induction false} GcdGreatest(a: nat, b: nat, d: nat)
    requires d > 0 && a % d == 0 && b % d == 0
    ensures Gcd(a, b) % d == 0
    decreases b
  {
    if b > 0 {
      var p := a / d;
      var q := b / d;
      var m := a / b;
      assert a == p * d && b == q * d;
      assert m * b == (m * q) * d;
      assert a % b == (p - m * q) * d;
      DivModUnique(a % b, d, p - m * q, 0);
      GcdGreatest(b, a % b, d);
    }
  }

  /** Two numbers whose gcd is 1, such as the parts `Reduce` returns, share no divisor but 1. */
  lemma Coprime(a: nat, b: nat, d: nat)
    requires Gcd(a, b) == 1 && d > 0 && a % d == 0 && b % d == 0
    ensures d == 1
  {
    GcdGreatest(a, b, d);
    if d > 1 {
      DivModUnique(1, d, 0, 1);
    }
  }

  /** Scaling dividend and divisor by k scales the remainder by k. */
  lemma ScaledMod(k: nat, x: nat, y: nat)
    requires k > 0 && y > 0
    ensures k * y > 0 && (k * x) % (k * y) == k * (x % y)
  {
    var q := x / y;
    var r := x % y;
    assert x == q * y + r;
    assert k * x == q * (k * y) + k * r by {
      assert k * (q * y + r) == k * (q * y) + k * r;
      assert k * (q * y) == q * (k * y);
    }
    assert k * r < k * y by { MulMono(r + 1, y, k); }
    DivModUnique(k * x, k * y, q, k * r);
  }

  /** Scaling both arguments scales the gcd: gcd(k*x, k*y) = k * gcd(x, y). */
  lemma {:induction false} GcdScale(k: nat, x: nat, y: nat)
    requires k > 0
    ensures Gcd(k * x, k * y) == k * Gcd(x, y)
    decreases y
  {
    if y > 0 {
      ScaledMod(k, x, y);
      GcdScale(k, y, x % y);
    }
  }

  /** Undoing the common factor g keeps the ratio once the sign of w / h is put back on x. */
  lemma ReduceRatio(w: int, h: int, g: int, x: int, y: int)
    requires Abs(w) == x * g && Abs(h) == y * g
    ensures (if (w < 0) != (h < 0) then -x else x) * h == y * w
  {
    if w >= 0 && h >= 0 {
      assert x * (y * g) == y * (x * g);
    } else if w >= 0 && h < 0 {
      assert -x * -(y * g) == y * (x * g);
    } else if w < 0 && h >= 0 {
      assert -x * (y * g) == y * -(x * g);
    } else {
      assert x * -(y * g) == y * -(x * g);
    }
  }

  /** g * z == g forces z == 1 when g is positive. */
  lemma CancelFactor(g: int, z: int)
    requires g > 0 && g * z == g
    ensures z == 1
  {
    if z < 1 {
      MulMono(z, 0, g);
    } else if z > 1 {
      MulMono(2, z, g);
    }
  }

  /** A multiple of g is g times its quotient, and that quotient is zero only for zero. */
  lemma ExactDivision(a: nat, g: nat)
    requires g > 0 && a % g == 0
    ensures a == (a / g) * g && (a / g > 0 <==> a > 0)
  {
    var x := a / g;
    assert a == x * g;
    if x <= 0 { MulMono(x, 0, g); }
  }

  /**
   * Dividing both sides by their gcd leaves coprime parts that multiply back
   * to the originals; the second part stays positive and the first is zero
   * only when a is.
   */
  lemma DivideOutGcd(a: nat, b: nat)
    requires b > 0
    ensures Gcd(a, b) > 0
    ensures a == (a / Gcd(a, b)) * Gcd(a, b) && b == (b / Gcd(a, b)) * Gcd(a, b)
    ensures b / Gcd(a, b) > 0 && (a / Gcd(a, b) > 0 <==> a > 0)
    ensures Gcd(a / Gcd(a, b), b / Gcd(a, b)) == 1
  {
    var g := Gcd(a, b);
    GcdDivides(a, b);
    ExactDivision(a, g);
    ExactDivision(b, g);
    CofactorsCoprime(a, b, g, a / g, b / g);
  }

  /** The cofactors of a and b with respect to their gcd have gcd 1. */
  lemma CofactorsCoprime(a: nat, b: nat, g: nat, x: nat, y: nat)
    requires g > 0 && g == Gcd(a, b) && a == x * g && b == y * g
    ensures Gcd(x, y) == 1
  {
    GcdScale(g, x, y);
    assert g * x == a && g * y == b;
    var z := Gcd(x, y);
    assert g * z == g;
    CancelFactor(g, z);
  }

  /**
   * `Fraction(w, h)`: numerator and denominator in lowest terms, the
   * denominator positive, the value unchanged. `h` must be non-zero (the
   * caller turns a zero height into an error first).
   */
  function Reduce(w: int, h: int): (r: (int, int))
    requires h != 0
    ensures r.1 > 0
    ensures r.0 * h == r.1 * w
    ensures Gcd(Abs(r.0), r.1) == 1
    ensures r.0 > 0 <==> (w > 0 && h > 0) || (w < 0 && h < 0)
  {
    var g := Gcd(Abs(w), Abs(h));
    DivideOutGcd(Abs(w), Abs(h));
    var x := Abs(w) / g;
    var y := Abs(h) / g;
    ReduceRatio(w, h, g, x, y);
    (if (w < 0) != (h < 0) then -x else x, y)
  }

  /** An integer cross-multiplication survives the conversion to reals. */
  lemma CastRatio(a: int, b: int, c: int, d: int)
    requires a * d == b * c
    ensures (a as real) * (d as real) == (b as real) * (c as real)
  {
    assert (a * d) as real == (a as real) * (d as real);
    assert (b * c) as real == (b as real) * (c as real);
  }

  /** a : b and c : d name the same ratio, stated without division. */
  predicate SameRatio(a: real, b: real, c: real, d: real) {
    a * d == b * c
  }

  /** Equal ratios chain through a middle pair with non-zero terms. */
  lemma SameRatioTrans(a: real, b: real, c: real, d: real, e: real, f: real)
    requires SameRatio(a, b, c, d) && SameRatio(c, d, e, f)
    requires c != 0.0 && d != 0.0
    ensures SameRatio(a, b, e, f)
  {
    assert a * d * c * f == b * c * d * e;
    assert c * d * (a * f - b * e) == 0.0;
  }

  /** x halved k times, as the first loop does. */
  function Halved(x: real, k: nat): real {
    if k == 0 then x else Halved(x, k - 1) / 2.0
  }

  /** x scaled by 1.5, j times, as the second loop does. */
  function Grown(x: real, j: nat): real {
    if j == 0 then x else Grown(x, j - 1) * 1.5
  }

  /** Halving k times divides by 2^k. */
  lemma {:induction false} HalvedPow(x: real, k: nat)
    ensures Halved(x, k) * Pow(2.0, k) == x
  {
    if k > 0 {
      HalvedPow(x, k - 1);
      assert Halved(x, k) * Pow(2.0, k) == (Halved(x, k - 1) / 2.0) * (2.0 * Pow(2.0, k - 1));
    }
  }

  /** Halving both sides the same number of times keeps their ratio. */
  lemma {:induction false} HalvedRatio(n0: real, d0: real, k: nat)
    ensures SameRatio(Halved(n0, k), Halved(d0, k), n0, d0)
  {
    if k > 0 {
      HalvedRatio(n0, d0, k - 1);
      var n := Halved(n0, k - 1);
      var d := Halved(d0, k - 1);
      assert (n / 2.0) * d0 == (n * d0) / 2.0;
      assert (d / 2.0) * n0 == (d * n0) / 2.0;
    }
  }

  /** Halving keeps a value positive. */
  lemma {:induction false} HalvedPositive(x: real, k: nat)
    requires x > 0.0
    ensures Halved(x, k) > 0.0
  {
    if k > 0 {
      HalvedPositive(x, k - 1);
    }
  }

  /** A power of a base of at least 1 is at least 1. */
  lemma {:induction false} PowAtLeastOne(b: real, k: nat)
    requires b >= 1.0
    ensures Pow(b, k) >= 1.0
  {
    if k > 0 {
      PowAtLeastOne(b, k - 1);
      assert b * Pow(b, k - 1) >= 1.0 * Pow(b, k - 1);
    }
  }

  /** While a halved value still exceeds 10, the factor 2^k is below the original value. */
  lemma HalvingBound(x: real, k: nat)
    requires Halved(x, k) > 10.0
    ensures Pow(2.0, k) < x
  {
    HalvedPow(x, k);
    PowAtLeastOne(2.0, k);
    var h := Halved(x, k);
    var p := Pow(2.0, k);
    assert h * p - p == (h - 1.0) * p;
    assert (h - 1.0) * p > 0.0;
  }

  /**
   * The first loop: halve both sides while either exceeds 10. It stops at the
   * first k for which both are at most 10.
   */
  method Halve(n0: real, d0: real) returns (n: real, d: real, ghost k: nat)
    ensures n <= 10.0 && d <= 10.0
    ensures n == Halved(n0, k) && d == Halved(d0, k)
    ensures k > 0 ==> Halved(n0, k - 1) > 10.0 || Halved(d0, k - 1) > 10.0
    ensures n0 <= 10.0 && d0 <= 10.0 ==> k == 0
  {
    n, d, k := n0, d0, 0;
    ghost var p: int := 1;
    ghost var largest := if n0 < d0 then d0 else n0;
    while n > 10.0 || d > 10.0
      invariant p as real == Pow(2.0, k)
      invariant n == Halved(n0, k) && d == Halved(d0, k)
      invariant k > 0 ==> Halved(n0, k - 1) > 10.0 || Halved(d0, k - 1) > 10.0
      invariant k > 0 ==> largest > 10.0
      decreases largest.Floor - p
    {
      assert p as real < largest by {
        if n > 10.0 {
          HalvingBound(n0, k);
        } else {
          HalvingBound(d0, k);
        }
      }
      n := n / 2.0;
      d := d / 2.0;
      k := k + 1;
      p := 2 * p;
    }
  }

  /** Scaling j times by 1.5 multiplies by 1.5^j. */
  lemma {:induction false} GrownPow(x: real, j: nat)
    ensures Grown(x, j) == x * Pow(1.5, j)
  {
    if j > 0 {
      GrownPow(x, j - 1);
      assert Grown(x, j) == (x * Pow(1.5, j - 1)) * 1.5;
    }
  }

  /** Scaling both sides the same number of times keeps their ratio. */
  lemma {:induction false} GrownRatio(n0: real, d0: real, j: nat)
    ensures SameRatio(Grown(n0, j), Grown(d0, j), n0, d0)
  {
    if j > 0 {
      GrownRatio(n0, d0, j - 1);
      var n := Grown(n0, j - 1);
      var d := Grown(d0, j - 1);
      assert (n * 1.5) * d0 == (n * d0) * 1.5;
      assert (d * 1.5) * n0 == (d * n0) * 1.5;
    }
  }

  /** Bernoulli: scaling by 1.5, j times, adds at least half the value per step. */
  lemma {:induction false} GrownAtLeast(x: real, j: nat)
    requires x > 0.0
    ensures Grown(x, j) >= x + x * (j as real) / 2.0
  {
    if j > 0 {
      GrownAtLeast(x, j - 1);
      assert x * (j as real) == x * ((j - 1) as real) + x;
      assert x * ((j - 1) as real) >= 0.0;
    }
  }

  /** While a scaled value from x >= m > 0 is still below 5, fewer than 10 / m steps were taken. */
  lemma GrowingBound(x: real, m: real, j: nat)
    requires x >= m > 0.0 && Grown(x, j) < 5.0
    ensures j < (10.0 / m).Floor + 1
  {
    GrownAtLeast(x, j);
    assert x * (j as real) < 10.0;
    assert m * (j as real) <= x * (j as real);
    BelowQuotient(m, j as real, 10.0);
  }

  /** Dividing m * x < c through by a positive m. */
  lemma BelowQuotient(m: real, x: real, c: real)
    requires m > 0.0 && m * x < c
    ensures x < c / m
  {
    var q := c / m;
    assert q * m == c;
  }

  /**
   * A side that is zero or negative never reaches 5 however often it is
   * scaled, which is why the second loop needs both sides positive.
   */
  lemma {:induction false} NonPositiveNeverGrows(x: real, j: nat)
    requires x <= 0.0
    ensures Grown(x, j) <= 0.0 < 5.0
  {
    if j > 0 {
      NonPositiveNeverGrows(x, j - 1);
    }
  }

  /**
   * The second loop: scale both sides by 1.5 while either is below 5. It
   * stops at the first j for which both are at least 5. Both sides must be
   * positive, or the loop never ends.
   */
  method Grow(n0: real, d0: real) returns (n: real, d: real, ghost j: nat)
    requires n0 > 0.0 && d0 > 0.0
    ensures n >= 5.0 && d >= 5.0
    ensures n == Grown(n0, j) && d == Grown(d0, j)
    ensures j > 0 ==> Grown(n0, j - 1) < 5.0 || Grown(d0, j - 1) < 5.0
    ensures n0 >= 5.0 && d0 >= 5.0 ==> j == 0
  {
    n, d, j := n0, d0, 0;
    ghost var m := if n0 < d0 then n0 else d0;
    while n < 5.0 || d < 5.0
      invariant n == Grown(n0, j) && d == Grown(d0, j)
      invariant j > 0 ==> Grown(n0, j - 1) < 5.0 || Grown(d0, j - 1) < 5.0
      invariant j > 0 ==> m < 5.0
      decreases (10.0 / m).Floor + 1 - j
    {
      if n < 5.0 {
        GrowingBound(n0, m, j);
      } else {
        GrowingBound(d0, m, j);
      }
      n := n * 1.5;
      d := d * 1.5;
      j := j + 1;
    }
  }

  /**
   * The first loop, started from n : d, stops after exactly k steps: both
   * sides are then at most 10, and before the last step one exceeded 10.
   */
  predicate HalvingStops(n: real, d: real, k: nat) {
    Halved(n, k) <= 10.0 && Halved(d, k) <= 10.0 &&
    (k > 0 ==> Halved(n, k - 1) > 10.0 || Halved(d, k - 1) > 10.0)
  }

  /**
   * The second loop, started from n : d, stops after exactly j steps: both
   * sides are then at least 5, and before the last step one was below 5.
   */
  predicate GrowingStops(n: real, d: real, j: nat) {
    Grown(n, j) >= 5.0 && Grown(d, j) >= 5.0 &&
    (j > 0 ==> Grown(n, j - 1) < 5.0 || Grown(d, j - 1) < 5.0)
  }

  /** A positive value only shrinks as it is halved further. */
  lemma {:induction false} HalvedAntitone(x: real, a: nat, b: nat)
    requires a <= b && Halved(x, b) > 0.0
    ensures Halved(x, a) >= Halved(x, b)
    decreases b
  {
    if a < b {
      HalvedAntitone(x, a, b - 1);
    }
  }

  /** A non-negative value only grows as it is scaled further. */
  lemma {:induction false} GrownMonotone(x: real, a: nat, b: nat)
    requires a <= b && Grown(x, a) >= 0.0
    ensures Grown(x, a) <= Grown(x, b)
    decreases b
  {
    if a < b {
      GrownMonotone(x, a, b - 1);
    }
  }

  /** The first loop has one stopping point: its step count is determined by the start. */
  lemma HalvingStopsUnique(n: real, d: real, k1: nat, k2: nat)
    requires HalvingStops(n, d, k1) && HalvingStops(n, d, k2)
    ensures k1 == k2
  {
    if k1 < k2 {
      HalvingPassed(n, d, k1, k2);
    } else if k2 < k1 {
      HalvingPassed(n, d, k2, k1);
    }
  }

  /** Once both sides are at most 10, no later step can see a side above 10. */
  lemma HalvingPassed(n: real, d: real, k1: nat, k2: nat)
    requires k1 < k2 && Halved(n, k1) <= 10.0 && Halved(d, k1) <= 10.0
    ensures Halved(n, k2 - 1) <= 10.0 && Halved(d, k2 - 1) <= 10.0
  {
    if Halved(n, k2 - 1) > 10.0 {
      HalvedAntitone(n, k1, k2 - 1);
    }
    if Halved(d, k2 - 1) > 10.0 {
      HalvedAntitone(d, k1, k2 - 1);
    }
  }

  /** The second loop has one stopping point: its step count is determined by the start. */
  lemma GrowingStopsUnique(n: real, d: real, j1: nat, j2: nat)
    requires GrowingStops(n, d, j1) && GrowingStops(n, d, j2)
    ensures j1 == j2
  {
    if j1 < j2 {
      GrowingPassed(n, d, j1, j2);
    } else if j2 < j1 {
      GrowingPassed(n, d, j2, j1);
    }
  }

  /** Once both sides are at least 5, no later step can see a side below 5. */
  lemma GrowingPassed(n: real, d: real, j1: nat, j2: nat)
    requires j1 < j2 && Grown(n, j1) >= 5.0 && Grown(d, j1) >= 5.0
    ensures Grown(n, j2 - 1) >= 5.0 && Grown(d, j2 - 1) >= 5.0
  {
    GrownMonotone(n, j1, j2 - 1);
    GrownMonotone(d, j1, j2 - 1);
  }

  /**
   * A 16:9 resolution (1920 x 1080, say) gives a 12 x 6.75 figure: one
   * halving to 8 : 4.5, then one scaling by 1.5. Whatever step counts meet
   * the stopping conditions give exactly that size.
   */
  lemma WidescreenFigure(k: nat, j: nat)
    requires HalvingStops(16.0, 9.0, k) && GrowingStops(Halved(16.0, k), Halved(9.0, k), j)
    ensures Reduce(1920, 1080) == (16, 9)
    ensures Grown(Halved(16.0, k), j) == 12.0 && Grown(Halved(9.0, k), j) == 6.75
  {
    assert HalvingStops(16.0, 9.0, 1);
    HalvingStopsUnique(16.0, 9.0, k, 1);
    assert GrowingStops(8.0, 4.5, 1);
    GrowingStopsUnique(8.0, 4.5, j, 1);
  }

  /**
   * The scaled figure has no upper bound: for a 1:100 resolution the first
   * loop halves four times to 0.0625 : 6.25, and the second loop then needs
   * eleven steps, leaving the height far above 10.
   */
  lemma TallFigureExceedsTen()
    ensures Halved(100.0, 3) > 10.0 && Halved(100.0, 4) == 6.25 && Halved(1.0, 4) == 0.0625
    ensures Grown(0.0625, 10) < 5.0 && Grown(0.0625, 11) >= 5.0
    ensures Grown(6.25, 11) > 500.0
  {
  }

  /**
   * Both loops applied to a reduced ratio numerator:denominator: the result
   * is the start halved k times and then scaled j times, where k and j are
   * where the two loops stop. It is at least 5 on both sides and keeps the
   * ratio, and a pair already within [5, 10] on both sides passes through
   * unchanged.
   */
  method ScaleToFigure(numerator: int, denominator: int) returns (width: real, height: real, ghost k: nat, ghost j: nat)
    requires numerator > 0 && denominator > 0
    ensures HalvingStops(numerator as real, denominator as real, k)
    ensures GrowingStops(Halved(numerator as real, k), Halved(denominator as real, k), j)
    ensures width == Grown(Halved(numerator as real, k), j) && height == Grown(Halved(denominator as real, k), j)
    ensures width >= 5.0 && height >= 5.0
    ensures SameRatio(width, height, numerator as real, denominator as real)
    ensures 5 <= numerator <= 10 && 5 <= denominator <= 10 ==>
              width == numerator as real && height == denominator as real
  {
    var n1, d1;
    n1, d1, k := Halve(numerator as real, denominator as real);
    assert n1 > 0.0 && d1 > 0.0 by {
      HalvedPositive(numerator as real, k);
      HalvedPositive(denominator as real, k);
    }
    width, height, j := Grow(n1, d1);
    assert SameRatio(width, height, numerator as real, denominator as real) by {
      HalvedRatio(numerator as real, denominator as real, k);
      GrownRatio(n1, d1, j);
      SameRatioTrans(width, height, n1, d1, numerator as real, denominator as real);
    }
  }

  /** A pair in the ratio n : d, where n : d is the ratio w : h, is in the ratio w : h. */
  lemma RatioThrough(width: real, height: real, n: int, d: int, w: int, h: int)
    requires n != 0 && d != 0 && n * h == d * w
    requires SameRatio(width, height, n as real, d as real)
    ensures SameRatio(width, height, w as real, h as real)
  {
    CastRatio(n, d, w, h);
    SameRatioTrans(width, height, n as real, d as real, w as real, h as real);
  }

  /** Python's `Fraction` raises ZeroDivisionError for a zero height. */
  datatype SizeError = ZeroDivision

  /** The figure settings `plot` and `save_plot` pass to matplotlib. */
  datatype Figure = Figure(width: real, height: real, dpi: int, xlim: (int, int), ylim: (int, int))

  /**
   * The figure size and axis box for a resolution, at 100 dots per inch
   * unless told otherwise. A zero height fails. A
   * width and height of opposite signs, or a zero width, make the second loop
   * run forever, so they are excluded.
   */
  method FigureFor(resolution: (int, int), dpi: int := 100) returns (r: Result<Figure, SizeError>, ghost k: nat, ghost j: nat)
    requires resolution.1 == 0 || (resolution.0 > 0 && resolution.1 > 0) || (resolution.0 < 0 && resolution.1 < 0)
    ensures r.Failure? <==> resolution.1 == 0
    ensures r.Success? ==>
              var lowest := Reduce(resolution.0, resolution.1);
              var n, d := lowest.0 as real, lowest.1 as real;
              HalvingStops(n, d, k) && GrowingStops(Halved(n, k), Halved(d, k), j) &&
              r.value.width == Grown(Halved(n, k), j) && r.value.height == Grown(Halved(d, k), j)
    ensures r.Success? ==> r.value.width >= 5.0 && r.value.height >= 5.0
    ensures r.Success? ==> SameRatio(r.value.width, r.value.height, resolution.0 as real, resolution.1 as real)
    ensures r.Success? ==> r.value.dpi == dpi && r.value.xlim == (0, resolution.0) && r.value.ylim == (0, resolution.1)
    ensures r.Success? ==>
              var lowest := Reduce(resolution.0, resolution.1);
              5 <= lowest.0 <= 10 && 5 <= lowest.1 <= 10 ==>
                r.value.width == lowest.0 as real && r.value.height == lowest.1 as real
  {
    var w, h := resolution.0, resolution.1;
    if h == 0 {
      return Failure(ZeroDivision), 0, 0;
    }
    var simplified := Reduce(w, h);
    var numerator, denominator := simplified.0, simplified.1;
    var width, height;
    width, height, k, j := ScaleToFigure(numerator, denominator);
    RatioThrough(width, height, numerator, denominator, w, h);
    r := Success(Figure(width, height, dpi, (0, w), (0, h)));
  }
}
