# Mamdani fuzzy inference for loan-risk scoring — a verified Dafny model

This project models the inference core of a small fuzzy-logic loan-risk
scorer (`code_1.py`). An applicant's crisp input values are fuzzified by
trapezoidal membership functions. Each rule's strength is the minimum of its
antecedent degrees (Mamdani AND). Rule strengths are grouped by the rule's
consequent label. Each label's output set is clipped at the label's largest
strength, and the clipped curves are combined by pointwise maximum over a
grid. The combined curve is reduced to a crisp risk by its centroid, and a
batch driver does this for every application.

Modules, leaves first:

- `Results` (results.dfy): the failures of the pipeline as an `Error`
  datatype, `Result<T>`, and `Collect`, which gives "stop at the first
  failure" to the loops of the source.
- `Extrema` (extrema.dfy): `Min`/`Max` (np.fmin/np.fmax on two values) and
  `MinOf`/`MaxOf` (np.min/np.max of a non-empty list).
- `Trapezoid` (membership.dfy): the `FuzzySet` value and its `Membership`
  function, branch for branch as in the source.
- `Inference` (inference.dfy): `Fuzzify`, `ApplyRule` and `AggregateRules`.
  Each is a method with the source's loop, proved equal to a specification
  function (`Degrees`, `RuleOutput`, `Aggregate`). Lemmas state what those
  functions guarantee.
- `Defuzzification` (defuzzify.dfy): the clip-and-combine loop of
  `defuzzify` (`ClipAndCombine`), the centroid, and `Defuzzify`.
- `Evaluation` (evaluation.dfy): `EvaluateApplications`, the batch driver.

Modelling choices:

- Degrees, inputs and grid points are `real`, so divisions are exact.
- A fuzzy set's linguistic label is the field `term`, because `label` is a
  reserved word in Dafny.
- The knowledge base is the source's dictionary from variable name to a list
  of fuzzy sets (`map<string, seq<FuzzySet>>`). An application is a map from
  variable name to value.
- Every `KeyError`, the `ValueError` of `np.min([])` and the `IndexError` of
  `fuzzy_sets['Risk'][0]` become a tagged `Err`. They are raised in the
  source's order: `inputs[var]` is checked first, then `fuzzy_sets[var]`
  inside fuzzify, then `memberships[label]`.
- `evaluate_applications` catches nothing. The first failing application
  therefore ends the whole batch (`FailureAbortsBatch`). A design that keeps
  a per-application failure slot would differ; the model follows the code.
- The source never validates the breakpoint order. `Membership` takes any
  `a, b, c, d`, and its range and its division guards are proved for every
  order. A vertical edge is open at both ends: `x <= a` and `x >= d` give 0
  first. With `b == c == d` the value at the peak `b` is therefore 0, not 1
  (`VerticalRightEdgeDropsAtPeak`), and with `a == b < c` it is 0 at `b`
  while the plateau just right of `b` is 1. So the rising line reaches 1 at `b`
  only when `a < b < d` (`ReachesOneAtB`). The rising edge is monotone on
  `[a, b]` cut off before `d` (`NonDecreasingOnRise`). Symmetrically,
  monotonicity on `[c, d]` needs `a < c` (`VerticalLeftEdgeRisesFromFoot`).
  A design that makes every
  trapezoid continuous at `b` would differ here; the model follows the code.
- `defuzzify` walks the labels of the consequents dictionary in insertion
  order. `ClipAndCombine` instead takes the remaining labels in an arbitrary
  order (`:|`). Its postcondition does not mention that order, so the curve
  is shown not to depend on it.
- One grid (`seq<real>`) is shared by the aggregated curve and every output
  set's curve.

## Model

| member | source | states |
|---|---|---|
| `Trapezoid.Membership` | code_1.py:15-24 | For every breakpoint order, the degree lies in [0, 1]; both divisions have a non-zero divisor under their guards |
| `Trapezoid.GuardsCover` | code_1.py:16-24 | For every non-NaN x inside (a, d), the degree comes from the rising line, the plateau or the falling line, so the final `return 0.0` is reached only by NaN |
| `Trapezoid.ZeroOutsideSupport` | code_1.py:16-17 | The degree is 0 whenever x <= a or x >= d |
| `Trapezoid.PositiveIffInsideSupport` | code_1.py:15-24 | The degree is positive exactly when a < x < d, for every breakpoint order |
| `Trapezoid.OneIffCore` | code_1.py:18-23 | With a <= b <= c <= d, the degree is exactly 1 iff a < x, b <= x <= c and x < d; both slopes stay below 1 |
| `Trapezoid.ReachesOneAtB` | code_1.py:18-19 | With a < b < d, the rising line reaches 1 at b, continuing into the plateau |
| `Trapezoid.NonDecreasingOnRise` | code_1.py:16-19 | For a <= x <= y <= b with y < d, membership(x) <= membership(y) |
| `Trapezoid.NonIncreasingOnFall` | code_1.py:16-23 | For ordered breakpoints and a < c <= x <= y <= d, membership(y) <= membership(x) |
| `Trapezoid.VerticalRightEdgeDropsAtPeak` | code_1.py:16-19 | For a=0, b=c=d=2: membership(1) = 0.5 but membership(2) = 0, because the x >= d test comes first |
| `Trapezoid.VerticalLeftEdgeRisesFromFoot` | code_1.py:16-23 | For a=b=c=0, d=2 (ordered): membership(0) = 0 but membership(1) = 0.5, because the x <= a test comes first; so the falling edge is monotone only when a < c |
| `Trapezoid.SampleTrapezoid` | code_1.py:15-24 | For a=0, b=2, c=4, d=6: degrees 0, 0.5, 1, 0.5, 0 at x = 0, 1, 3, 5, 7 |
| `Extrema.Min` | code_1.py:115 | np.fmin of two non-NaN degrees is at most both and equals one of them |
| `Extrema.Max` | code_1.py:115 | np.fmax of two non-NaN degrees is at least both and equals one of them |
| `Extrema.MinOf` | code_1.py:96 | np.min of a non-empty list is at most every element and equals one of them |
| `Extrema.MaxOf` | code_1.py:111 | np.max of a non-empty list is at least every element and equals one of them |
| `Extrema.MaxOfSameElements` | code_1.py:111 | np.max of two non-empty lists holding the same values is the same |
| `Results.Collect` | code_1.py:93-95 | Processing stops at the first failure. With no failure, all values come back in order, one per entry; otherwise the result is the first failing entry's error and every earlier entry succeeded |
| `Results.CollectPrefixOk` | code_1.py:120-123 | A successful entry after a successful prefix extends the collected values by exactly its value: the append step of a results loop |
| `Results.CollectPrefixErr` | code_1.py:120-123 | A failing entry after a successful prefix makes the whole run fail with that entry's error: the loop's exit by exception |
| `Inference.Fuzzify` | code_1.py:85-89 | An unregistered variable fails with UnknownVariable; otherwise the result is the memberships map built over the variable's sets in order |
| `Inference.DegreesKeys` | code_1.py:86-88 | The memberships map has exactly the labels of the variable's sets as keys |
| `Inference.DegreesLastWins` | code_1.py:87-88 | A set's label maps to that set's membership(value) unless a later set repeats the label; with distinct labels this holds for every set |
| `Inference.DegreesInUnitRange` | code_1.py:85-89 | Every degree in the memberships map lies in [0, 1] |
| `Inference.DegreesFromSets` | code_1.py:85-89 | Every entry of the memberships map is the membership of some set carrying that label |
| `Inference.AntecedentDegree` | code_1.py:94-95 | Errors come in the source's order: a missing input gives MissingInput, then an unregistered variable gives UnknownVariable, then a label no set carries gives UnknownLabel (iff no set has it); a degree that comes back lies in [0, 1] and is the membership of a set with that label |
| `Inference.ApplyRule` | code_1.py:91-97 | The loop over the antecedents returns the rule's firing or the first failure, in the source's raise order (missing input, unknown variable, unknown label, empty antecedent list) |
| `Inference.RuleStrengthIsMin` | code_1.py:91-97 | A rule fires iff it has an antecedent and every antecedent has a degree. It fires with its consequent's label and a strength in [0, 1] that is <= every antecedent degree and equal to one of them |
| `Inference.Grouped` | code_1.py:99-106 | The dictionary the rule loop builds never holds an empty list: a label's list is created by the append that gives it its first strength |
| `Inference.GroupedByLabel` | code_1.py:99-106 | The dictionary's keys are exactly the labels the firings carry, and each label maps to the strengths of the firings with that label, in rule order |
| `Inference.GroupedKeys` | code_1.py:102-104 | A label is a key exactly when some rule fired it |
| `Inference.GroupedInUnitRange` | code_1.py:99-106 | Grouping keeps every strength in [0, 1] when every firing's strength is in [0, 1] |
| `Inference.StrengthsForFromFirings` | code_1.py:99-106 | Every strength listed under a label comes from a firing with that label |
| `Inference.FiringsInStrengthsFor` | code_1.py:99-106 | The strength of every firing with a label is listed under that label |
| `Inference.RuleOutputsOkIffAllFire` | code_1.py:101-102 | The rule loop succeeds exactly when every rule of the rule base fires |
| `Inference.FiringsOfRules` | code_1.py:101-102 | A successful rule loop yields exactly the firings of the rules of the rule base |
| `Inference.SameRulesSameFirings` | code_1.py:99-106 | Rule bases with the same rules succeed together and yield the same set of firings |
| `Inference.GroupedTotalLength` | code_1.py:99-106 | The list lengths of the consequents dictionary add up to the number of rules |
| `Inference.AggregateRules` | code_1.py:99-106 | The rule loop returns the strengths grouped by consequent label in rule order, or the first rule's failure |
| `Inference.CollectedShape` | code_1.py:99-106 | For any successful run of rule outcomes: keys iff some outcome fired the label, strengths in [0, 1], one strength per outcome |
| `Inference.AggregateShape` | code_1.py:99-106 | The keys are exactly the labels that rules fired, every listed strength lies in [0, 1], and the lists together hold one strength per rule |
| `Defuzzification.ClippedMax` | code_1.py:110-115 | The pointwise maximum of zero and the clipped curves lies in [0, 1] |
| `Defuzzification.Clip` | code_1.py:115 | The clipped value is at most the output set's membership and at least min(s, membership) for every strength s of the label; it equals the membership or the label's largest strength |
| `Defuzzification.ClippedMaxIsLargest` | code_1.py:110-115 | The value at a point is >= every selected clipped value and equals one of them, or 0; it is 0 when no output set's label is selected |
| `Defuzzification.AggregatedAtIsLargest` | code_1.py:108-115 | At each grid point the curve lies in [0, 1]. It is >= min(s, membership(x)) for every strength s of every fired label's output set, and equals the largest min(max strength, membership) (0 if none) |
| `Defuzzification.ClippedMaxNone` | code_1.py:109 | The curve starts as all zeros |
| `Defuzzification.ClippedMaxUnion` | code_1.py:110-115 | Folding two groups of labels gives the maximum of the two folds, so label order does not matter |
| `Defuzzification.ClipAndCombine` | code_1.py:108-115 | Visiting the labels in any order, the loop yields one value per grid point, equal to the aggregated curve there |
| `Defuzzification.MassZeroIffSilent` | code_1.py:116 | A non-negative curve has zero mass iff it is zero at every grid point |
| `Defuzzification.Centroid` | code_1.py:116 | The centroid fails with NoRuleFired exactly when the curve has zero mass; otherwise it is the point c with c·Σμ = Σx·μ |
| `Defuzzification.MomentBounds` | code_1.py:116 | lo·Σμ <= Σx·μ <= hi·Σμ when every grid point lies in [lo, hi] and the curve is non-negative |
| `Defuzzification.CentroidWithinGrid` | code_1.py:116 | A centroid, when it exists, lies within the grid's range |
| `Defuzzification.Defuzzify` | code_1.py:108-116 | A missing output variable gives UnknownVariable and an empty one gives EmptyVariable; otherwise the result is the centroid of the aggregated curve |
| `Defuzzification.DefuzzifiedOutcome` | code_1.py:108-116 | Defuzzification fails with NoRuleFired iff the aggregated curve is zero at every grid point; otherwise the score lies within the grid's range |
| `Defuzzification.ZeroFiringIsNoOp` | code_1.py:99-115 | Adding a rule that fires with strength 0 changes no point of the aggregated curve |
| `Defuzzification.RuleOrderFree` | code_1.py:99-115 | The aggregated curve depends only on which firings occurred: firings in any order or repetition give the same value at every point |
| `Defuzzification.SameMaxesSameClips` | code_1.py:110-115 | Two dictionaries with the same labels and the same largest strength per label give the same curve |
| `Defuzzification.ZeroFiringAnywhere` | code_1.py:99-115 | A rule firing with strength 0, inserted at any position of the rule base, changes no point of the aggregated curve |
| `Defuzzification.ZeroFiringKeepsScore` | code_1.py:99-116 | A rule that fires with strength 0 changes no defuzzified result: the same score, or the same failure |
| `Evaluation.Evaluate` | code_1.py:121-122 | One application fails with the rule loop's error first, then with UnknownVariable when the risk variable is not registered; a score that comes back lies within the grid's range |
| `Evaluation.EvaluateApplications` | code_1.py:118-124 | The batch loop yields each application's risk, or the first failure |
| `Evaluation.BatchOrder` | code_1.py:118-124 | A successful batch has one score per application in input order; a failed batch carries the first failing application's error |
| `Evaluation.FailureAbortsBatch` | code_1.py:118-124 | One failing application makes the whole batch fail |
| `Evaluation.ScoreIndependentOfRuleOrder` | code_1.py:99-124 | Two rule bases with the same rules, in any order or repetition, both fail or give the same risk |

## Left out

- Reading the variable, rule, application and risk files (`read_fuzzy_sets`, `read_rules`, `read_applications`, `read_risks`): file I/O and regex tokenising. The model starts from the parsed records. It therefore does not capture that `read_applications` silently drops a line on `ValueError`.
- The `__main__` block: file writing and printing.
- Grid generation with `np.arange(xmin, xmax, 0.1)`: floating-point stepping. The grid is a given `seq<real>`. Each output set's curve is sampled on that same grid. In the source, each output set uses its own range, and a length mismatch with the first set's grid is a numpy broadcasting error; the model does not capture this.
- `skfuzzy.defuzz(..., 'centroid')` is a foreign library call. It is replaced by the discrete weighted average Σ x·μ / Σ μ, which fails with NoRuleFired when Σ μ = 0. The library's own integration formula is not part of this model.
- Floating-point rounding and NaN: every quantity is an exact `real`. In the source, a NaN input (`float("nan")` is accepted when applications are read) fails every comparison of `membership`, falls through to its final `return 0.0` and gets degree 0; np.min/np.max propagate NaN, while np.fmin/np.fmax return the operand that is not NaN. None of this is modelled.
- The rule's name and its consequent variable are carried but unused, as in the source. Only the consequent label is used.
- ScoreIndependentOfRuleOrder: when two orderings of the rule base both fail, it promises only that both fail, not that they fail with the same error. The first failing rule, and so the error reported, depends on the order.
