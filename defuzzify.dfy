/** The output side of defuzzify in code_1.py: each fired label's output
    set is clipped at the label's largest strength, the clipped curves are
    combined by pointwise maximum over a grid, and the combined curve is
    reduced to its centroid. */
module Defuzzification {
  import opened Results
  import opened Extrema
  import opened Trapezoid
  import opened Inference

  /** A consequents dictionary as aggregate_rules builds it: no list is
      empty, so np.max can be taken of each. */
  predicate NonEmptyLists(consequents: map<string, seq<real>>) {
    forall t | t in consequents :: consequents[t] != []
  }

  /** The curve of output set `s` clipped at its label's largest strength:
      np.fmin(max_strength, mf_values) at one grid point. */
  function Clip(consequents: map<string, seq<real>>, s: FuzzySet, x: real): (r: real)
    requires s.term in consequents && consequents[s.term] != []
    ensures r <= Membership(s, x) && forall k | 0 <= k < |consequents[s.term]| :: Min(consequents[s.term][k], Membership(s, x)) <= r
    ensures r == Membership(s, x) || r == MaxOf(consequents[s.term])
  {
    Min(MaxOf(consequents[s.term]), Membership(s, x))
  }

  /** At `x`, the pointwise maximum of zero and the clipped curves of the
      output sets whose label is in `terms`. */
  function ClippedMax(consequents: map<string, seq<real>>, sets: seq<FuzzySet>, terms: set<string>, x: real): (r: real)
    requires NonEmptyLists(consequents) && terms <= consequents.Keys
    ensures 0.0 <= r <= 1.0
  {
    if sets == [] then 0.0
    else
      var s := sets[|sets| - 1];
      var prev := ClippedMax(consequents, sets[..|sets| - 1], terms, x);
      if s.term in terms then Max(prev, Clip(consequents, s, x)) else prev
  }

  /** The aggregated output curve at `x`: every fired label contributes. */
  function AggregatedAt(consequents: map<string, seq<real>>, sets: seq<FuzzySet>, x: real): real
    requires NonEmptyLists(consequents)
  {
    ClippedMax(consequents, sets, consequents.Keys, x)
  }

  /** The value at `x` is the largest clipped value among the output sets
      whose label is in `terms`, and 0 when there is no such set. */
  lemma {:induction false} ClippedMaxIsLargest(consequents: map<string, seq<real>>, sets: seq<FuzzySet>, terms: set<string>, x: real)
    requires NonEmptyLists(consequents) && terms <= consequents.Keys
    ensures var r := ClippedMax(consequents, sets, terms, x);
      && (forall s | s in sets && s.term in terms :: Clip(consequents, s, x) <= r)
      && (r == 0.0 || exists s | s in sets && s.term in terms :: Clip(consequents, s, x) == r)
      && ((forall s | s in sets :: s.term !in terms) ==> r == 0.0)
  {
    if sets != [] {
      var init := sets[..|sets| - 1];
      ClippedMaxIsLargest(consequents, init, terms, x);
      assert sets == init + [sets[|sets| - 1]];
    }
  }

  /** The aggregated curve in terms of the rule strengths: at every grid
      point it lies in [0, 1], it is at least min(s, membership) for every
      strength s of every fired label and that label's output set, and it
      equals the largest clipped value (0 when no output set's label fired). */
  lemma AggregatedAtIsLargest(consequents: map<string, seq<real>>, sets: seq<FuzzySet>, x: real)
    requires NonEmptyLists(consequents)
    ensures var r := AggregatedAt(consequents, sets, x);
      && 0.0 <= r <= 1.0
      && (forall s, k | s in sets && s.term in consequents && 0 <= k < |consequents[s.term]| ::
            Min(consequents[s.term][k], Membership(s, x)) <= r)
      && (r == 0.0 || exists s | s in sets && s.term in consequents :: Min(MaxOf(consequents[s.term]), Membership(s, x)) == r)
      && ((forall s | s in sets :: s.term !in consequents) ==> r == 0.0)
  {
    ClippedMaxIsLargest(consequents, sets, consequents.Keys, x);
  }

  /** With no label, nothing contributes. */
  lemma {:induction false} ClippedMaxNone(consequents: map<string, seq<real>>, sets: seq<FuzzySet>, x: real)
    requires NonEmptyLists(consequents)
    ensures ClippedMax(consequents, sets, {}, x) == 0.0
  {
    if sets != [] {
      ClippedMaxNone(consequents, sets[..|sets| - 1], x);
    }
  }

  /** Handling two groups of labels one after the other gives the maximum
      of the two: the order in which labels are visited does not matter. */
  lemma {:induction false} ClippedMaxUnion(consequents: map<string, seq<real>>, sets: seq<FuzzySet>, p: set<string>, q: set<string>, x: real)
    requires NonEmptyLists(consequents) && p <= consequents.Keys && q <= consequents.Keys
    ensures ClippedMax(consequents, sets, p + q, x) == Max(ClippedMax(consequents, sets, p, x), ClippedMax(consequents, sets, q, x))
  {
    if sets != [] {
      ClippedMaxUnion(consequents, sets[..|sets| - 1], p, q, x);
    }
  }

  /** The loop of defuzzify that builds the aggregated curve: for each
      label of the consequents dictionary, taken in whatever order, for each
      output set with that label, the set's curve clipped at the label's
      largest strength is folded into the curve by pointwise maximum. */
  method ClipAndCombine(consequents: map<string, seq<real>>, outputSets: seq<FuzzySet>, grid: seq<real>) returns (aggregated: seq<real>)
    requires NonEmptyLists(consequents)
    ensures |aggregated| == |grid|
    ensures forall i | 0 <= i < |grid| :: aggregated[i] == AggregatedAt(consequents, outputSets, grid[i])
  {
    aggregated := seq(|grid|, i => 0.0);
    var pending := consequents.Keys;
    ghost var done: set<string> := {};
    forall i | 0 <= i < |grid|
      ensures aggregated[i] == ClippedMax(consequents, outputSets, done, grid[i])
    {
      ClippedMaxNone(consequents, outputSets, grid[i]);
    }
    while pending != {}
      invariant pending <= consequents.Keys && done == consequents.Keys - pending
      invariant |aggregated| == |grid|
      invariant forall i | 0 <= i < |grid| :: aggregated[i] == ClippedMax(consequents, outputSets, done, grid[i])
      decreases pending
    {
      var term :| term in pending;
      var maxStrength := MaxOf(consequents[term]);
      for j := 0 to |outputSets|
        invariant |aggregated| == |grid|
        invariant forall i | 0 <= i < |grid| ::
          (aggregated[i] == Max(ClippedMax(consequents, outputSets, done, grid[i]), ClippedMax(consequents, outputSets[..j], {term}, grid[i])))
      {
        assert outputSets[..j + 1][..j] == outputSets[..j];
        var fset := outputSets[j];
        if fset.term == term {
          var mfValues := seq(|grid|, i requires 0 <= i < |grid| => Membership(fset, grid[i]));
          aggregated := seq(|grid|, i requires 0 <= i < |grid| => Max(aggregated[i], Min(maxStrength, mfValues[i])));
        }
      }
      assert outputSets[..|outputSets|] == outputSets;
      forall i | 0 <= i < |grid|
        ensures aggregated[i] == ClippedMax(consequents, outputSets, done + {term}, grid[i])
      {
        ClippedMaxUnion(consequents, outputSets, done, {term}, grid[i]);
      }
      done := done + {term};
      pending := pending - {term};
    }
    assert done == consequents.Keys;
  }

  // ---------------------------------------------------------------------
  // Centroid

  /** Σ grid[i] · mu[i]. */
  function Moment(grid: seq<real>, mu: seq<real>): real
    requires |grid| == |mu|
  {
    if grid == [] then 0.0
    else Moment(grid[..|grid| - 1], mu[..|mu| - 1]) + grid[|grid| - 1] * mu[|mu| - 1]
  }

  /** Σ mu[i]. */
  function Mass(mu: seq<real>): real {
    if mu == [] then 0.0 else Mass(mu[..|mu| - 1]) + mu[|mu| - 1]
  }

  /** The centroid of the curve `mu` sampled at the points of `grid`, as the
      discrete weighted average Σ x·mu / Σ mu; a curve of zero mass has no
      centroid. */
  function Centroid(grid: seq<real>, mu: seq<real>): (r: Result<real>)
    requires |grid| == |mu|
    ensures r.Err? <==> Mass(mu) == 0.0
    ensures r.Err? ==> r.error == NoRuleFired
    ensures r.Ok? ==> r.value * Mass(mu) == Moment(grid, mu)
  {
    if Mass(mu) == 0.0 then Err(NoRuleFired) else Ok(Moment(grid, mu) / Mass(mu))
  }

  predicate NonNegative(mu: seq<real>) {
    forall i | 0 <= i < |mu| :: 0.0 <= mu[i]
  }

  /** A non-negative curve has zero mass exactly when it is zero at every
      grid point. */
  lemma {:induction false} MassZeroIffSilent(mu: seq<real>)
    requires NonNegative(mu)
    ensures 0.0 <= Mass(mu)
    ensures Mass(mu) == 0.0 <==> forall i | 0 <= i < |mu| :: mu[i] == 0.0
  {
    if mu != [] {
      MassZeroIffSilent(mu[..|mu| - 1]);
    }
  }

  /** A moment lies between the mass times `lo` and the mass times `hi`. */
  predicate Bracketed(mass: real, moment: real, lo: real, hi: real) {
    lo * mass <= moment <= hi * mass
  }

  /** The moment is bracketed by the mass times the smallest and the
      largest grid point. */
  lemma {:induction false} MomentBounds(grid: seq<real>, mu: seq<real>, lo: real, hi: real)
    requires |grid| == |mu| && NonNegative(mu)
    requires forall i | 0 <= i < |grid| :: lo <= grid[i] <= hi
    ensures Bracketed(Mass(mu), Moment(grid, mu), lo, hi)
  {
    if grid == [] {
      assert mu == [];
      assert lo * 0.0 == 0.0 && hi * 0.0 == 0.0;
    } else {
      var n := |grid| - 1;
      assert forall i | 0 <= i < n :: grid[..n][i] == grid[i] && mu[..n][i] == mu[i];
      MomentBounds(grid[..n], mu[..n], lo, hi);
      MomentBoundsStep(grid, mu, lo, hi);
    }
  }

  /** The last grid point keeps the bounds of the prefix sums. */
  lemma MomentBoundsStep(grid: seq<real>, mu: seq<real>, lo: real, hi: real)
    requires |grid| == |mu| > 0
    requires lo <= grid[|grid| - 1] <= hi && 0.0 <= mu[|mu| - 1]
    requires Bracketed(Mass(mu[..|mu| - 1]), Moment(grid[..|grid| - 1], mu[..|mu| - 1]), lo, hi)
    ensures Bracketed(Mass(mu), Moment(grid, mu), lo, hi)
  {
    var n := |grid| - 1;
    SumStep(Mass(mu[..n]), Moment(grid[..n], mu[..n]), grid[n], mu[n], Mass(mu), Moment(grid, mu), lo, hi);
  }

  /** One more grid point keeps the moment between the bounds. */
  lemma SumStep(mass: real, moment: real, x: real, m: real, mass': real, moment': real, lo: real, hi: real)
    requires Bracketed(mass, moment, lo, hi)
    requires lo <= x <= hi && 0.0 <= m
    requires mass' == mass + m && moment' == moment + x * m
    ensures Bracketed(mass', moment', lo, hi)
  {
    assert (x - lo) * m >= 0.0;
    assert (hi - x) * m >= 0.0;
    assert lo * (mass + m) == lo * mass + lo * m;
    assert hi * (mass + m) == hi * mass + hi * m;
  }

  /** A centroid, when there is one, lies within the range of the grid. */
  lemma CentroidWithinGrid(grid: seq<real>, mu: seq<real>, lo: real, hi: real)
    requires |grid| == |mu| && NonNegative(mu)
    requires forall i | 0 <= i < |grid| :: lo <= grid[i] <= hi
    ensures Centroid(grid, mu).Ok? ==> lo <= Centroid(grid, mu).value <= hi
  {
    MassZeroIffSilent(mu);
    MomentBounds(grid, mu, lo, hi);
    if Mass(mu) != 0.0 {
      QuotientBounds(Moment(grid, mu), Mass(mu), lo, hi);
    }
  }

  lemma QuotientBounds(p: real, q: real, lo: real, hi: real)
    requires q > 0.0 && lo * q <= p <= hi * q
    ensures lo <= p / q <= hi
  {
  }

  // ---------------------------------------------------------------------
  // defuzzify

  /** The aggregated curve sampled on the grid. */
  function Curve(consequents: map<string, seq<real>>, sets: seq<FuzzySet>, grid: seq<real>): seq<real>
    requires NonEmptyLists(consequents)
  {
    seq(|grid|, i requires 0 <= i < |grid| => AggregatedAt(consequents, sets, grid[i]))
  }

  /** What defuzzify returns: the output variable's sets must be registered
      (KeyError) and non-empty (IndexError on [0]); then the centroid of the
      aggregated curve. */
  function Defuzzified(consequents: map<string, seq<real>>, fuzzySets: FuzzySets, outputVar: string, grid: seq<real>): Result<real>
    requires NonEmptyLists(consequents)
  {
    if outputVar !in fuzzySets then Err(UnknownVariable(outputVar))
    else if fuzzySets[outputVar] == [] then Err(EmptyVariable(outputVar))
    else Centroid(grid, Curve(consequents, fuzzySets[outputVar], grid))
  }

  /** defuzzify, with the grid given instead of generated. */
  method Defuzzify(consequents: map<string, seq<real>>, fuzzySets: FuzzySets, outputVar: string, grid: seq<real>) returns (r: Result<real>)
    requires NonEmptyLists(consequents)
    ensures r == Defuzzified(consequents, fuzzySets, outputVar, grid)
  {
    if outputVar !in fuzzySets {
      return Err(UnknownVariable(outputVar));
    }
    if fuzzySets[outputVar] == [] {
      return Err(EmptyVariable(outputVar));
    }
    var aggregated := ClipAndCombine(consequents, fuzzySets[outputVar], grid);
    assert aggregated == Curve(consequents, fuzzySets[outputVar], grid);
    r := Centroid(grid, aggregated);
  }

  /** Defuzzification fails for want of a fired rule exactly when the
      aggregated curve is zero at every grid point; otherwise the score lies
      within the grid's range. */
  lemma DefuzzifiedOutcome(consequents: map<string, seq<real>>, fuzzySets: FuzzySets, outputVar: string, grid: seq<real>, lo: real, hi: real)
    requires NonEmptyLists(consequents)
    requires outputVar in fuzzySets && fuzzySets[outputVar] != []
    requires forall i | 0 <= i < |grid| :: lo <= grid[i] <= hi
    ensures Defuzzified(consequents, fuzzySets, outputVar, grid) == Err(NoRuleFired) <==>
      forall i | 0 <= i < |grid| :: AggregatedAt(consequents, fuzzySets[outputVar], grid[i]) == 0.0
    ensures Defuzzified(consequents, fuzzySets, outputVar, grid).Ok? ==>
      lo <= Defuzzified(consequents, fuzzySets, outputVar, grid).value <= hi
  {
    var mu := Curve(consequents, fuzzySets[outputVar], grid);
    assert forall i | 0 <= i < |grid| :: mu[i] == AggregatedAt(consequents, fuzzySets[outputVar], grid[i]);
    assert NonNegative(mu);
    MassZeroIffSilent(mu);
    CentroidWithinGrid(grid, mu, lo, hi);
  }

  /** Adding a rule that fires with strength 0 changes no point of the
      aggregated curve, whether its label is new or already fired. */
  lemma {:induction false} ZeroFiringIsNoOp(firings: seq<Firing>, t: string, sets: seq<FuzzySet>, x: real)
    requires forall f | f in firings :: 0.0 <= f.strength
    ensures AggregatedAt(Grouped(firings + [Firing(t, 0.0)]), sets, x) == AggregatedAt(Grouped(firings), sets, x)
  {
    var g := Grouped(firings);
    var g' := Grouped(firings + [Firing(t, 0.0)]);
    GroupedSnoc(firings, Firing(t, 0.0));
    GroupedByLabel(firings);
    forall u | u in g ensures MaxOf(g'[u]) == MaxOf(g[u]) {
      StrengthsForFromFirings(firings, u);
      if u == t {
        var w := g[u];
        assert g'[u] == w + [0.0];
        assert (w + [0.0])[..|w|] == w;
        assert w[0] in w && Firing(u, w[0]) in firings;
      }
    }
    SameClipsOnOldTerms(g, g', t, sets, x);
  }

  /** The step of ZeroFiringIsNoOp over the output sets. */
  lemma {:induction false} SameClipsOnOldTerms(g: map<string, seq<real>>, g': map<string, seq<real>>, t: string, sets: seq<FuzzySet>, x: real)
    requires NonEmptyLists(g) && NonEmptyLists(g')
    requires g'.Keys == g.Keys + {t}
    requires forall u | u in g :: MaxOf(g'[u]) == MaxOf(g[u])
    requires t !in g ==> g'[t] == [0.0]
    ensures ClippedMax(g', sets, g'.Keys, x) == ClippedMax(g, sets, g.Keys, x)
  {
    if sets != [] {
      SameClipsOnOldTerms(g, g', t, sets[..|sets| - 1], x);
    }
  }

  /** The aggregated curve depends only on which firings occurred, not on
      their order or repetition: a rule base permuted in any way gives the
      same curve. */
  lemma RuleOrderFree(firings: seq<Firing>, firings': seq<Firing>, sets: seq<FuzzySet>, x: real)
    requires forall f :: f in firings <==> f in firings'
    ensures AggregatedAt(Grouped(firings), sets, x) == AggregatedAt(Grouped(firings'), sets, x)
  {
    var g, g' := Grouped(firings), Grouped(firings');
    GroupedByLabel(firings);
    GroupedByLabel(firings');
    forall t | t in FiredTerms(firings) ensures t in FiredTerms(firings') {
      var f :| f in firings && f.term == t;
      assert f in firings';
    }
    forall t | t in FiredTerms(firings') ensures t in FiredTerms(firings) {
      var f :| f in firings' && f.term == t;
      assert f in firings;
    }
    assert g.Keys == g'.Keys;
    forall t | t in g ensures MaxOf(g[t]) == MaxOf(g'[t]) {
      StrengthsForFromFirings(firings, t);
      StrengthsForFromFirings(firings', t);
      FiringsInStrengthsFor(firings, t);
      FiringsInStrengthsFor(firings', t);
      MaxOfSameElements(g[t], g'[t]);
    }
    SameMaxesSameClips(g, g', sets, x);
  }

  /** Labels with the same largest strengths clip every output set alike. */
  lemma {:induction false} SameMaxesSameClips(g: map<string, seq<real>>, g': map<string, seq<real>>, sets: seq<FuzzySet>, x: real)
    requires NonEmptyLists(g) && NonEmptyLists(g') && g.Keys == g'.Keys
    requires forall t | t in g :: MaxOf(g[t]) == MaxOf(g'[t])
    ensures ClippedMax(g, sets, g.Keys, x) == ClippedMax(g', sets, g'.Keys, x)
  {
    if sets != [] {
      SameMaxesSameClips(g, g', sets[..|sets| - 1], x);
    }
  }

  /** A rule that fires with strength 0 changes no point of the aggregated
      curve wherever it stands in the rule base. */
  lemma ZeroFiringAnywhere(firings: seq<Firing>, k: nat, t: string, sets: seq<FuzzySet>, x: real)
    requires k <= |firings|
    requires forall f | f in firings :: 0.0 <= f.strength
    ensures AggregatedAt(Grouped(firings[..k] + [Firing(t, 0.0)] + firings[k..]), sets, x) == AggregatedAt(Grouped(firings), sets, x)
  {
    var z := Firing(t, 0.0);
    var inserted := firings[..k] + [z] + firings[k..];
    assert firings == firings[..k] + firings[k..];
    assert forall f :: f in inserted <==> f in firings + [z];
    RuleOrderFree(inserted, firings + [z], sets, x);
    ZeroFiringIsNoOp(firings, t, sets, x);
  }

  /** A rule that fires with strength 0 changes no score: the whole of
      defuzzify, failures included, gives the same result with or without
      it. */
  lemma ZeroFiringKeepsScore(firings: seq<Firing>, t: string, fuzzySets: FuzzySets, outputVar: string, grid: seq<real>)
    requires forall f | f in firings :: 0.0 <= f.strength
    ensures Defuzzified(Grouped(firings + [Firing(t, 0.0)]), fuzzySets, outputVar, grid) == Defuzzified(Grouped(firings), fuzzySets, outputVar, grid)
  {
    if outputVar in fuzzySets {
      var g, g' := Grouped(firings), Grouped(firings + [Firing(t, 0.0)]);
      var sets := fuzzySets[outputVar];
      forall i | 0 <= i < |grid|
        ensures AggregatedAt(g', sets, grid[i]) == AggregatedAt(g, sets, grid[i])
      {
        ZeroFiringIsNoOp(firings, t, sets, grid[i]);
      }
      assert Curve(g', sets, grid) == Curve(g, sets, grid);
    }
  }
}
