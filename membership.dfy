/** A labelled trapezoidal fuzzy set and its membership function
    (class FuzzySet in code_1.py). The set is never changed after it is
    built, so it is a value here. */
module Trapezoid {

  /** `term` is the linguistic label ("Low", "High", ...); `xmin`/`xmax` bound
      the universe of discourse; `a`, `b`, `c`, `d` are the breakpoints. The
      source does not check their order, so neither does this type. */
  datatype FuzzySet = FuzzySet(term: string, xmin: real, xmax: real, a: real, b: real, c: real, d: real)

  /** Breakpoints in the order a trapezoid is drawn. */
  predicate Ordered(s: FuzzySet) {
    s.a <= s.b <= s.c <= s.d
  }

  /** The degree of membership of `x`, branch by branch as in the source.
      Each division sits under a guard that makes its divisor positive
      (a < x <= b gives b - a > 0, c < x < d gives d - c > 0), which the
      verifier checks here for every order of the breakpoints. */
  function Membership(s: FuzzySet, x: real): (r: real)
    ensures 0.0 <= r <= 1.0
  {
    if x <= s.a || x >= s.d then 0.0
    else if s.a < x <= s.b then UnitQuotient(x - s.a, s.b - s.a); (x - s.a) / (s.b - s.a)
    else if s.b < x <= s.c then 1.0
    else if s.c < x < s.d then UnitQuotient(s.d - x, s.d - s.c); (s.d - x) / (s.d - s.c)
    else 0.0
  }

  /** On the reals, the last `return 0.0` of the source is dead code:
      inside the support (a, d), the degree always comes from the rising
      line, the plateau or the falling line. (Only a NaN input, which fails
      every comparison, reaches that line in the source.) */
  lemma GuardsCover(s: FuzzySet, x: real)
    requires s.a < x < s.d
    ensures || (s.a < x <= s.b && Membership(s, x) == (x - s.a) / (s.b - s.a))
            || (s.b < x <= s.c && Membership(s, x) == 1.0)
            || (s.c < x && Membership(s, x) == (s.d - x) / (s.d - s.c))
  {
  }

  /** Outside the open support (a, d) the degree is 0. */
  lemma ZeroOutsideSupport(s: FuzzySet, x: real)
    requires x <= s.a || x >= s.d
    ensures Membership(s, x) == 0.0
  {
  }

  /** The degree is positive exactly on the open interval (a, d), whatever
      the order of the breakpoints. */
  lemma PositiveIffInsideSupport(s: FuzzySet, x: real)
    ensures Membership(s, x) > 0.0 <==> s.a < x < s.d
  {
    if s.a < x < s.d && s.a < x <= s.b {
      assert x - s.a > 0.0 && s.b - s.a > 0.0;
      DivPositive(x - s.a, s.b - s.a);
    } else if s.a < x < s.d && !(s.b < x <= s.c) && s.c < x {
      DivPositive(s.d - x, s.d - s.c);
    }
  }

  /** On a trapezoid with ordered breakpoints the degree is exactly 1 on
      the core: from b (when the rise is not vertical) up to c, and never
      at d itself. */
  lemma OneIffCore(s: FuzzySet, x: real)
    requires Ordered(s)
    ensures Membership(s, x) == 1.0 <==> s.a < x && s.b <= x <= s.c && x < s.d
  {
    if x <= s.a || x >= s.d {
      ZeroOutsideSupport(s, x);
    } else if x < s.b {
      RisingValue(s, x);
      DivBelowOne(x - s.a, s.b - s.a);
    } else if x == s.b {
      RisingValue(s, x);
      SelfQuotient(s.b - s.a);
    } else if s.c < x {
      FallingValue(s, x);
      DivBelowOne(s.d - x, s.d - s.c);
    }
  }

  /** Continuity at b: where the rise is not vertical and b is below d,
      the rising line reaches exactly 1 at b. */
  lemma ReachesOneAtB(s: FuzzySet)
    requires s.a < s.b < s.d
    ensures Membership(s, s.b) == 1.0
  {
    SelfQuotient(s.b - s.a);
  }

  /** The rising edge: non-decreasing from a to b, up to but excluding d;
      when b == d the source returns 0 at b (see
      VerticalRightEdgeDropsAtPeak). */
  lemma NonDecreasingOnRise(s: FuzzySet, x: real, y: real)
    requires s.a <= x <= y <= s.b && y < s.d
    ensures Membership(s, x) <= Membership(s, y)
  {
    if s.a < x {
      RisingValue(s, x);
      RisingValue(s, y);
      DivMonotone(x - s.a, y - s.a, s.b - s.a);
    }
  }

  /** The falling edge: non-increasing from c to d. The left end c must lie
      above a; when a == b == c the source returns 0 at c. */
  lemma NonIncreasingOnFall(s: FuzzySet, x: real, y: real)
    requires s.a < s.c <= x <= y <= s.d
    requires Ordered(s)
    ensures Membership(s, y) <= Membership(s, x)
  {
    if y < s.d && s.c < x {
      FallingValue(s, x);
      FallingValue(s, y);
      DivMonotone(s.d - y, s.d - x, s.d - s.c);
    } else if y < s.d {
      assert Membership(s, x) == 1.0 by {
        if x <= s.b { SelfQuotient(s.b - s.a); }
      }
    }
  }

  lemma RisingValue(s: FuzzySet, x: real)
    requires s.a < x <= s.b && x < s.d
    ensures Membership(s, x) == (x - s.a) / (s.b - s.a)
  {
  }

  lemma FallingValue(s: FuzzySet, x: real)
    requires Ordered(s) && s.c < x < s.d
    ensures Membership(s, x) == (s.d - x) / (s.d - s.c)
  {
  }

  /** With b == c == d the vertical right edge is open at its top: the
      degree rises to 1/2 halfway up the slope and drops to 0 at the peak,
      so the rising edge is monotone only when b < d. */
  lemma VerticalRightEdgeDropsAtPeak()
    ensures var s := FuzzySet("Peak", 0.0, 2.0, 0.0, 2.0, 2.0, 2.0);
      Ordered(s) && Membership(s, 1.0) == 0.5 && Membership(s, 2.0) == 0.0
  {
  }

  /** With a == b == c the vertical left edge is open at its foot: the
      degree is 0 at c but 1/2 halfway down the slope, so the falling edge
      is monotone only when a < c. */
  lemma VerticalLeftEdgeRisesFromFoot()
    ensures var s := FuzzySet("Spike", 0.0, 2.0, 0.0, 0.0, 0.0, 2.0);
      Ordered(s) && Membership(s, 0.0) == 0.0 && Membership(s, 1.0) == 0.5
  {
  }

  /** The sample trapezoid a=0, b=2, c=4, d=6. */
  lemma SampleTrapezoid()
    ensures var s := FuzzySet("Medium", 0.0, 10.0, 0.0, 2.0, 4.0, 6.0);
      && Membership(s, 0.0) == 0.0 && Membership(s, 1.0) == 0.5
      && Membership(s, 3.0) == 1.0 && Membership(s, 5.0) == 0.5
      && Membership(s, 7.0) == 0.0 && Membership(s, 1.0) == Membership(s, 5.0)
  {
  }

  lemma DivPositive(p: real, q: real)
    requires p > 0.0 && q > 0.0
    ensures p / q > 0.0
  {
  }

  lemma DivBelowOne(p: real, q: real)
    requires 0.0 <= p < q
    ensures p / q < 1.0
  {
    var r := p / q;
    assert r * q == p;
    assert (1.0 - r) * q == q - p;
  }

  lemma UnitQuotient(p: real, q: real)
    requires 0.0 <= p <= q && 0.0 < q
    ensures 0.0 <= p / q <= 1.0
  {
    var r := p / q;
    assert r * q == p;
    assert (1.0 - r) * q == q - p;
  }

  lemma SelfQuotient(q: real)
    requires q != 0.0
    ensures q / q == 1.0
  {
  }

  lemma DivMonotone(p: real, p': real, q: real)
    requires p <= p' && q > 0.0
    ensures p / q <= p' / q
  {
    var r, r' := p / q, p' / q;
    assert r * q == p && r' * q == p';
    assert (r' - r) * q == p' - p;
  }
}
