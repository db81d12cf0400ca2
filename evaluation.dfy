/** evaluate_applications of code_1.py: every application is run through
    aggregate_rules and then defuzzify against the output variable "Risk". */
module Evaluation {
  import opened Results
  import opened Inference
  import opened Defuzzification
  import opened Extrema

  /** The output variable the source defuzzifies. */
  const Risk: string := "Risk"

  /** The crisp risk of one application, or the failure that stops it. */
  function Evaluate(application: Inputs, fuzzySets: FuzzySets, rules: seq<Rule>, grid: seq<real>): (r: Result<real>)
    ensures Aggregate(rules, application, fuzzySets).Err? ==> r == Err(Aggregate(rules, application, fuzzySets).error)
    ensures Aggregate(rules, application, fuzzySets).Ok? && Risk !in fuzzySets ==> r == Err(UnknownVariable(Risk))
    ensures r.Ok? ==>
      && Aggregate(rules, application, fuzzySets).Ok?
      && Risk in fuzzySets && fuzzySets[Risk] != [] && grid != []
      && MinOf(grid) <= r.value <= MaxOf(grid)
  {
    match Aggregate(rules, application, fuzzySets)
    case Err(e) => Err(e)
    case Ok(consequents) =>
      if grid == [] || Risk !in fuzzySets || fuzzySets[Risk] == [] then
        Defuzzified(consequents, fuzzySets, Risk, grid)
      else
        DefuzzifiedOutcome(consequents, fuzzySets, Risk, grid, MinOf(grid), MaxOf(grid));
        Defuzzified(consequents, fuzzySets, Risk, grid)
  }

  /** The outcome of every application on its own, in input order. */
  function Evaluations(applications: seq<Inputs>, fuzzySets: FuzzySets, rules: seq<Rule>, grid: seq<real>): (r: seq<Result<real>>)
    ensures |r| == |applications|
    ensures forall i | 0 <= i < |applications| :: r[i] == Evaluate(applications[i], fuzzySets, rules, grid)
  {
    seq(|applications|, i requires 0 <= i < |applications| => Evaluate(applications[i], fuzzySets, rules, grid))
  }

  /** The results of a batch: one score per application in input order, or
      the failure of the first application that fails. */
  function EvaluateAll(applications: seq<Inputs>, fuzzySets: FuzzySets, rules: seq<Rule>, grid: seq<real>): Result<seq<real>> {
    Collect(Evaluations(applications, fuzzySets, rules, grid))
  }

  /** evaluate_applications: a loop that appends each application's risk to
      the results list. Nothing catches an exception there, so the first
      failing application ends the whole batch. */
  method EvaluateApplications(applications: seq<Inputs>, fuzzySets: FuzzySets, rules: seq<Rule>, grid: seq<real>)
    returns (results: Result<seq<real>>)
    ensures results == EvaluateAll(applications, fuzzySets, rules, grid)
  {
    ghost var each := Evaluations(applications, fuzzySets, rules, grid);
    var risks: seq<real> := [];
    assert each[..0] == [];
    for i := 0 to |applications|
      invariant Collect(each[..i]) == Ok(risks)
    {
      var consequents := AggregateRules(rules, applications[i], fuzzySets);
      if consequents.Err? {
        CollectPrefixErr(each, i);
        return Err(consequents.error);
      }
      var risk := Defuzzify(consequents.value, fuzzySets, Risk, grid);
      if risk.Err? {
        CollectPrefixErr(each, i);
        return Err(risk.error);
      }
      CollectPrefixOk(each, i, risks, risk.value);
      risks := risks + [risk.value];
    }
    assert each[..|applications|] == each;
    return Ok(risks);
  }

  /** A successful batch has one result per application, in input order;
      a failed batch carries the failure of its first failing application,
      every application before it having succeeded. */
  lemma BatchOrder(applications: seq<Inputs>, fuzzySets: FuzzySets, rules: seq<Rule>, grid: seq<real>)
    ensures var r := EvaluateAll(applications, fuzzySets, rules, grid);
      && (r.Ok? ==>
            && |r.value| == |applications|
            && forall i | 0 <= i < |applications| :: Evaluate(applications[i], fuzzySets, rules, grid) == Ok(r.value[i]))
      && (r.Err? ==>
            exists k | 0 <= k < |applications| ::
              && Evaluate(applications[k], fuzzySets, rules, grid) == Err(r.error)
              && forall i | 0 <= i < k :: Evaluate(applications[i], fuzzySets, rules, grid).Ok?)
  {
    var each := Evaluations(applications, fuzzySets, rules, grid);
  }

  /** An application whose risk cannot be computed (a missing input, say)
      makes the whole batch fail, however many others would succeed. */
  lemma FailureAbortsBatch(applications: seq<Inputs>, fuzzySets: FuzzySets, rules: seq<Rule>, grid: seq<real>, k: nat)
    requires k < |applications| && Evaluate(applications[k], fuzzySets, rules, grid).Err?
    ensures EvaluateAll(applications, fuzzySets, rules, grid).Err?
  {
    var each := Evaluations(applications, fuzzySets, rules, grid);
    assert !each[k].Ok?;
  }

  /** The score of an application does not depend on the order of the
      rules, nor on a rule being repeated: two rule bases with the same
      rules both fail or both give the same risk. */
  lemma ScoreIndependentOfRuleOrder(application: Inputs, fuzzySets: FuzzySets, rules: seq<Rule>, rules': seq<Rule>, grid: seq<real>)
    requires forall r :: r in rules <==> r in rules'
    ensures Evaluate(application, fuzzySets, rules, grid).Ok? <==> Evaluate(application, fuzzySets, rules', grid).Ok?
    ensures Evaluate(application, fuzzySets, rules, grid).Ok? ==>
      Evaluate(application, fuzzySets, rules, grid) == Evaluate(application, fuzzySets, rules', grid)
  {
    SameRulesSameFirings(rules, rules', application, fuzzySets);
    if RuleOutputs(rules, application, fuzzySets).Ok? && Risk in fuzzySets {
      var firings := RuleOutputs(rules, application, fuzzySets).value;
      var firings' := RuleOutputs(rules', application, fuzzySets).value;
      var sets := fuzzySets[Risk];
      forall i | 0 <= i < |grid|
        ensures AggregatedAt(Grouped(firings), sets, grid[i]) == AggregatedAt(Grouped(firings'), sets, grid[i])
      {
        RuleOrderFree(firings, firings', sets, grid[i]);
      }
      assert Curve(Grouped(firings), sets, grid) == Curve(Grouped(firings'), sets, grid);
    }
  }
}
