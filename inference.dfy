/** Fuzzification, rule strength and grouping of rule strengths by
    consequent label: fuzzify, apply_rule and aggregate_rules of code_1.py. */
module Inference {
  import opened Results
  import opened Extrema
  import opened Trapezoid

  /** The knowledge base as the source holds it: variable name to the list
      of that variable's fuzzy sets (output sets under "Risk"). */
  type FuzzySets = map<string, seq<FuzzySet>>

  /** One application: variable name to crisp input value. */
  type Inputs = map<string, real>

  /** A `(variable, label)` pair of a rule. */
  datatype Clause = Clause(variable: string, term: string)

  /** A rule: antecedent clauses combined by AND, one consequent clause. */
  datatype Rule = Rule(name: string, antecedents: seq<Clause>, consequent: Clause)

  /** What apply_rule returns: the consequent label and the rule strength. */
  datatype Firing = Firing(term: string, strength: real)

  // ---------------------------------------------------------------------
  // Fuzzification

  /** The memberships dictionary after the loop of fuzzify has visited
      `sets` in order: each set writes its own label, a later set with the
      same label overwriting an earlier one. */
  function Degrees(sets: seq<FuzzySet>, value: real): map<string, real>
  {
    if sets == [] then map[]
    else
      var last := sets[|sets| - 1];
      Degrees(sets[..|sets| - 1], value)[last.term := Membership(last, value)]
  }

  /** The labels that occur in `sets`. */
  function Terms(sets: seq<FuzzySet>): set<string> {
    set s | s in sets :: s.term
  }

  /** fuzzify: the variable's sets must be registered (KeyError otherwise);
      the memberships map is then filled in a loop over them. */
  method Fuzzify(variable: string, value: real, fuzzySets: FuzzySets) returns (r: Result<map<string, real>>)
    ensures variable !in fuzzySets ==> r == Err(UnknownVariable(variable))
    ensures variable in fuzzySets ==> r == Ok(Degrees(fuzzySets[variable], value))
  {
    if variable !in fuzzySets {
      return Err(UnknownVariable(variable));
    }
    var sets := fuzzySets[variable];
    var memberships: map<string, real> := map[];
    for i := 0 to |sets|
      invariant memberships == Degrees(sets[..i], value)
    {
      assert sets[..i + 1][..i] == sets[..i];
      memberships := memberships[sets[i].term := Membership(sets[i], value)];
    }
    assert sets[..|sets|] == sets;
    return Ok(memberships);
  }

  /** The keys of the memberships map are exactly the labels of the
      variable's sets. */
  lemma {:induction false} DegreesKeys(sets: seq<FuzzySet>, value: real)
    ensures Degrees(sets, value).Keys == Terms(sets)
  {
    if sets != [] {
      var init := sets[..|sets| - 1];
      DegreesKeys(init, value);
      assert sets == init + [sets[|sets| - 1]];
      assert Terms(sets) == Terms(init) + {sets[|sets| - 1].term};
    }
  }

  /** A set that no later set shadows has its own membership degree under
      its label; when the labels are distinct this holds of every set. */
  lemma {:induction false} DegreesLastWins(sets: seq<FuzzySet>, value: real, i: nat)
    requires i < |sets|
    requires forall j | i < j < |sets| :: sets[j].term != sets[i].term
    ensures sets[i].term in Degrees(sets, value)
    ensures Degrees(sets, value)[sets[i].term] == Membership(sets[i], value)
  {
    if i < |sets| - 1 {
      var init := sets[..|sets| - 1];
      DegreesLastWins(init, value, i);
    }
  }

  /** Every degree in the map lies in [0, 1]. */
  lemma {:induction false} DegreesInUnitRange(sets: seq<FuzzySet>, value: real)
    ensures forall t | t in Degrees(sets, value) :: 0.0 <= Degrees(sets, value)[t] <= 1.0
  {
    if sets != [] {
      DegreesInUnitRange(sets[..|sets| - 1], value);
    }
  }

  /** Every degree in the map is the membership of some set with that
      label. */
  lemma {:induction false} DegreesFromSets(sets: seq<FuzzySet>, value: real)
    ensures forall t | t in Degrees(sets, value) ::
      exists s | s in sets :: s.term == t && Degrees(sets, value)[t] == Membership(s, value)
  {
    if sets != [] {
      var init := sets[..|sets| - 1];
      DegreesFromSets(init, value);
      assert sets == init + [sets[|sets| - 1]];
    }
  }

  // ---------------------------------------------------------------------
  // Rule strength

  /** The degree of one antecedent clause, failing the way the source does:
      inputs[var] first, then fuzzy_sets[var] inside fuzzify, then
      memberships[label]. */
  function AntecedentDegree(clause: Clause, inputs: Inputs, fuzzySets: FuzzySets): (r: Result<real>)
    ensures clause.variable !in inputs ==> r == Err(MissingInput(clause.variable))
    ensures clause.variable in inputs && clause.variable !in fuzzySets ==> r == Err(UnknownVariable(clause.variable))
    ensures clause.variable in inputs && clause.variable in fuzzySets ==>
      (r == Err(UnknownLabel(clause.term)) <==> forall s | s in fuzzySets[clause.variable] :: s.term != clause.term)
    ensures r.Ok? ==>
      && clause.variable in inputs && clause.variable in fuzzySets
      && 0.0 <= r.value <= 1.0
      && exists s | s in fuzzySets[clause.variable] :: s.term == clause.term && r.value == Membership(s, inputs[clause.variable])
  {
    if clause.variable !in inputs then Err(MissingInput(clause.variable))
    else if clause.variable !in fuzzySets then Err(UnknownVariable(clause.variable))
    else
      DegreesKeys(fuzzySets[clause.variable], inputs[clause.variable]);
      DegreesInUnitRange(fuzzySets[clause.variable], inputs[clause.variable]);
      DegreesFromSets(fuzzySets[clause.variable], inputs[clause.variable]);
      var memberships := Degrees(fuzzySets[clause.variable], inputs[clause.variable]);
      if clause.term !in memberships then Err(UnknownLabel(clause.term))
      else Ok(memberships[clause.term])
  }

  /** The outcome of every antecedent on its own, in order. */
  function AntecedentResults(rule: Rule, inputs: Inputs, fuzzySets: FuzzySets): (r: seq<Result<real>>)
    ensures |r| == |rule.antecedents|
    ensures forall i | 0 <= i < |r| :: r[i] == AntecedentDegree(rule.antecedents[i], inputs, fuzzySets)
  {
    seq(|rule.antecedents|, i requires 0 <= i < |rule.antecedents| =>
      AntecedentDegree(rule.antecedents[i], inputs, fuzzySets))
  }

  /** The degrees of all antecedents, in order, or the first failure. */
  function AntecedentDegrees(rule: Rule, inputs: Inputs, fuzzySets: FuzzySets): Result<seq<real>> {
    Collect(AntecedentResults(rule, inputs, fuzzySets))
  }

  /** What apply_rule returns: the consequent's label with the minimum of
      the antecedent degrees; np.min of an empty list raises. */
  function RuleOutput(rule: Rule, inputs: Inputs, fuzzySets: FuzzySets): Result<Firing> {
    match AntecedentDegrees(rule, inputs, fuzzySets)
    case Err(e) => Err(e)
    case Ok(degrees) =>
      if degrees == [] then Err(EmptyAntecedents)
      else Ok(Firing(rule.consequent.term, MinOf(degrees)))
  }

  /** apply_rule: a loop that fuzzifies the input of every antecedent and
      collects the degree of its label, then takes the minimum. */
  method ApplyRule(rule: Rule, inputs: Inputs, fuzzySets: FuzzySets) returns (r: Result<Firing>)
    ensures r == RuleOutput(rule, inputs, fuzzySets)
  {
    ghost var each := AntecedentResults(rule, inputs, fuzzySets);
    var antecedentValues: seq<real> := [];
    assert each[..0] == [];
    for i := 0 to |rule.antecedents|
      invariant Collect(each[..i]) == Ok(antecedentValues)
    {
      var clause := rule.antecedents[i];
      if clause.variable !in inputs {
        CollectPrefixErr(each, i);
        return Err(MissingInput(clause.variable));
      }
      var memberships := Fuzzify(clause.variable, inputs[clause.variable], fuzzySets);
      if memberships.Err? {
        CollectPrefixErr(each, i);
        return Err(memberships.error);
      }
      if clause.term !in memberships.value {
        CollectPrefixErr(each, i);
        return Err(UnknownLabel(clause.term));
      }
      CollectPrefixOk(each, i, antecedentValues, memberships.value[clause.term]);
      antecedentValues := antecedentValues + [memberships.value[clause.term]];
    }
    assert each[..|rule.antecedents|] == each;
    if antecedentValues == [] {
      return Err(EmptyAntecedents);
    }
    return Ok(Firing(rule.consequent.term, MinOf(antecedentValues)));
  }

  /** A rule fires with its consequent's label and a strength that is the
      minimum of its antecedents' degrees: no larger than any of them and
      equal to one of them. It fails exactly when some antecedent fails or
      there is no antecedent. */
  lemma {:induction false} RuleStrengthIsMin(rule: Rule, inputs: Inputs, fuzzySets: FuzzySets)
    ensures RuleOutput(rule, inputs, fuzzySets).Ok? <==>
      |rule.antecedents| > 0 && forall i | 0 <= i < |rule.antecedents| :: AntecedentDegree(rule.antecedents[i], inputs, fuzzySets).Ok?
    ensures RuleOutput(rule, inputs, fuzzySets).Ok? ==>
      var f := RuleOutput(rule, inputs, fuzzySets).value;
      && f.term == rule.consequent.term
      && 0.0 <= f.strength <= 1.0
      && (forall i | 0 <= i < |rule.antecedents| :: f.strength <= AntecedentDegree(rule.antecedents[i], inputs, fuzzySets).value)
      && (exists i | 0 <= i < |rule.antecedents| :: f.strength == AntecedentDegree(rule.antecedents[i], inputs, fuzzySets).value)
  {
    var each := AntecedentResults(rule, inputs, fuzzySets);
    forall i | 0 <= i < |rule.antecedents| && each[i].Ok?
      ensures 0.0 <= each[i].value <= 1.0
    {
      var clause := rule.antecedents[i];
      DegreesInUnitRange(fuzzySets[clause.variable], inputs[clause.variable]);
    }
  }

  // ---------------------------------------------------------------------
  // Grouping by consequent label

  /** The labels the firings carry. */
  function FiredTerms(firings: seq<Firing>): set<string> {
    set f | f in firings :: f.term
  }

  /** The strengths of the firings with label `t`, in firing order. */
  function StrengthsFor(firings: seq<Firing>, t: string): seq<real> {
    if firings == [] then []
    else
      var last := firings[|firings| - 1];
      StrengthsFor(firings[..|firings| - 1], t) + (if last.term == t then [last.strength] else [])
  }

  /** The consequents dictionary after the loop of aggregate_rules has seen
      `firings` in order: each firing appends its strength to the list of
      its label, creating that list on the label's first firing. No list
      is ever empty. */
  function Grouped(firings: seq<Firing>): (m: map<string, seq<real>>)
    ensures forall t | t in m :: m[t] != []
  {
    if firings == [] then map[]
    else
      var g := Grouped(firings[..|firings| - 1]);
      var f := firings[|firings| - 1];
      g[f.term := (if f.term in g then g[f.term] else []) + [f.strength]]
  }

  /** One more firing appends its strength to its own label's list and
      changes nothing else: the step of the aggregate_rules loop. */
  lemma GroupedSnoc(firings: seq<Firing>, f: Firing)
    ensures Grouped(firings + [f]) ==
      Grouped(firings)[f.term := (if f.term in Grouped(firings) then Grouped(firings)[f.term] else []) + [f.strength]]
  {
    assert (firings + [f])[..|firings|] == firings;
  }

  /** The dictionary, read label by label: its keys are exactly the fired
      labels, and each maps to the strengths of the firings with that
      label, in firing order. */
  lemma {:induction false} GroupedByLabel(firings: seq<Firing>)
    ensures Grouped(firings).Keys == FiredTerms(firings)
    ensures forall t | t in Grouped(firings) :: Grouped(firings)[t] == StrengthsFor(firings, t)
  {
    if firings != [] {
      var n := |firings| - 1;
      var init, f := firings[..n], firings[n];
      GroupedByLabel(init);
      assert firings == init + [f];
      assert FiredTerms(firings) == FiredTerms(init) + {f.term};
      GroupedSnoc(init, f);
      forall t | t in Grouped(firings)
        ensures Grouped(firings)[t] == StrengthsFor(firings, t)
      {
        if t == f.term && t !in FiredTerms(init) {
          StrengthsForAbsent(init, t);
        }
      }
    }
  }

  lemma {:induction false} StrengthsForAbsent(firings: seq<Firing>, t: string)
    requires t !in FiredTerms(firings)
    ensures StrengthsFor(firings, t) == []
  {
    if firings != [] {
      var init := firings[..|firings| - 1];
      assert FiredTerms(init) <= FiredTerms(firings);
      StrengthsForAbsent(init, t);
    }
  }

  /** Every strength grouped under `t` is the strength of a firing
      labelled `t`. */
  lemma {:induction false} StrengthsForFromFirings(firings: seq<Firing>, t: string)
    ensures forall s | s in StrengthsFor(firings, t) :: Firing(t, s) in firings
  {
    if firings != [] {
      var init := firings[..|firings| - 1];
      StrengthsForFromFirings(init, t);
      assert firings == init + [firings[|firings| - 1]];
    }
  }

  /** Conversely, the strength of every firing labelled `t` is grouped
      under `t`. */
  lemma {:induction false} FiringsInStrengthsFor(firings: seq<Firing>, t: string)
    ensures forall s | Firing(t, s) in firings :: s in StrengthsFor(firings, t)
  {
    if firings != [] {
      var init := firings[..|firings| - 1];
      FiringsInStrengthsFor(init, t);
      assert firings == init + [firings[|firings| - 1]];
    }
  }

  /** The sum of the lengths of a map's lists. */
  ghost function TotalLength(m: map<string, seq<real>>): nat
    decreases |m|
  {
    if m == map[] then 0
    else
      var t :| t in m;
      |m[t]| + TotalLength(m - {t})
  }

  /** TotalLength does not depend on which key is taken first. */
  lemma {:induction false} TotalLengthRemove(m: map<string, seq<real>>, t: string)
    requires t in m
    ensures TotalLength(m) == |m[t]| + TotalLength(m - {t})
    decreases |m|
  {
    var u :| u in m && TotalLength(m) == |m[u]| + TotalLength(m - {u});
    if u != t {
      var mu := m - {u};
      var mt := m - {t};
      assert |mu| < |m| && |mt| < |m|;
      TotalLengthRemove(mu, t);
      TotalLengthRemove(mt, u);
      assert mu - {t} == mt - {u};
    }
  }

  /** The lists of the consequents dictionary together hold one strength
      per rule. */
  lemma {:induction false} GroupedTotalLength(firings: seq<Firing>)
    ensures TotalLength(Grouped(firings)) == |firings|
  {
    if firings == [] {
      assert Grouped(firings) == map[];
    } else {
      var n := |firings| - 1;
      var init := firings[..n];
      var f := firings[n];
      assert firings == init + [f];
      GroupedTotalLength(init);
      GroupedSnoc(init, f);
      var g := Grouped(init);
      var g' := Grouped(firings);
      TotalLengthRemove(g', f.term);
      assert g' - {f.term} == g - {f.term};
      if f.term in g {
        TotalLengthRemove(g, f.term);
      } else {
        assert g - {f.term} == g;
      }
    }
  }

  /** The outcome of every rule on its own, in rule order. */
  function RuleResults(rules: seq<Rule>, inputs: Inputs, fuzzySets: FuzzySets): (r: seq<Result<Firing>>)
    ensures |r| == |rules| && forall i | 0 <= i < |rules| :: r[i] == RuleOutput(rules[i], inputs, fuzzySets)
  {
    seq(|rules|, i requires 0 <= i < |rules| => RuleOutput(rules[i], inputs, fuzzySets))
  }

  /** The firings of the rules, in rule order, or the first failure. */
  function RuleOutputs(rules: seq<Rule>, inputs: Inputs, fuzzySets: FuzzySets): Result<seq<Firing>> {
    Collect(RuleResults(rules, inputs, fuzzySets))
  }

  /** What aggregate_rules returns. */
  function Aggregate(rules: seq<Rule>, inputs: Inputs, fuzzySets: FuzzySets): Result<map<string, seq<real>>> {
    match RuleOutputs(rules, inputs, fuzzySets)
    case Err(e) => Err(e)
    case Ok(firings) => Ok(Grouped(firings))
  }

  /** aggregate_rules: applies every rule in order and appends its strength
      to the list of its consequent label. */
  method AggregateRules(rules: seq<Rule>, inputs: Inputs, fuzzySets: FuzzySets) returns (r: Result<map<string, seq<real>>>)
    ensures r == Aggregate(rules, inputs, fuzzySets)
  {
    ghost var each := RuleResults(rules, inputs, fuzzySets);
    ghost var fired: seq<Firing> := [];
    var consequents: map<string, seq<real>> := map[];
    assert each[..0] == [];
    for i := 0 to |rules|
      invariant Collect(each[..i]) == Ok(fired)
      invariant consequents == Grouped(fired)
    {
      var outcome := ApplyRule(rules[i], inputs, fuzzySets);
      if outcome.Err? {
        CollectPrefixErr(each, i);
        return Err(outcome.error);
      }
      var firing := outcome.value;
      CollectPrefixOk(each, i, fired, firing);
      var strengths := if firing.term in consequents then consequents[firing.term] else [];
      GroupedSnoc(fired, firing);
      consequents := consequents[firing.term := strengths + [firing.strength]];
      fired := fired + [firing];
    }
    assert each[..|rules|] == each;
    return Ok(consequents);
  }

  /** The grouping keeps what the source promises: one key per fired
      consequent label and no other, lists that together hold one strength
      per rule, and every listed strength a strength of a rule with that
      consequent label. */
  lemma AggregateShape(rules: seq<Rule>, inputs: Inputs, fuzzySets: FuzzySets)
    requires Aggregate(rules, inputs, fuzzySets).Ok?
    ensures var m := Aggregate(rules, inputs, fuzzySets).value;
      && (forall t :: t in m <==> exists i | 0 <= i < |rules| ::
            RuleOutput(rules[i], inputs, fuzzySets).Ok? && RuleOutput(rules[i], inputs, fuzzySets).value.term == t)
      && (forall t | t in m :: forall s | s in m[t] :: 0.0 <= s <= 1.0)
      && TotalLength(m) == |rules|
  {
    var rs := RuleResults(rules, inputs, fuzzySets);
    forall i | 0 <= i < |rs| && rs[i].Ok?
      ensures 0.0 <= rs[i].value.strength <= 1.0
    {
      FiringInUnitRange(rules[i], inputs, fuzzySets);
    }
    CollectedShape(rs);
  }

  /** AggregateShape for any sequence of rule outcomes that all succeeded. */
  lemma CollectedShape(rs: seq<Result<Firing>>)
    requires Collect(rs).Ok?
    requires forall i | 0 <= i < |rs| && rs[i].Ok? :: 0.0 <= rs[i].value.strength <= 1.0
    ensures var m := Grouped(Collect(rs).value);
      && (forall t :: t in m <==> exists i | 0 <= i < |rs| :: rs[i].Ok? && rs[i].value.term == t)
      && (forall t | t in m :: forall s | s in m[t] :: 0.0 <= s <= 1.0)
      && TotalLength(m) == |rs|
  {
    var firings := Collect(rs).value;
    assert forall i | 0 <= i < |rs| :: rs[i] == Ok(firings[i]);
    GroupedInUnitRange(firings);
    GroupedTotalLength(firings);
    GroupedKeys(firings);
  }

  /** A label is a key exactly when some firing carries it. */
  lemma GroupedKeys(firings: seq<Firing>)
    ensures forall t :: t in Grouped(firings) <==> exists i | 0 <= i < |firings| :: firings[i].term == t
  {
    GroupedByLabel(firings);
    forall t | t in Grouped(firings)
      ensures exists i | 0 <= i < |firings| :: firings[i].term == t
    {
      var f :| f in firings && f.term == t;
    }
  }

  /** The part of RuleStrengthIsMin that the grouping needs. */
  lemma FiringInUnitRange(rule: Rule, inputs: Inputs, fuzzySets: FuzzySets)
    requires RuleOutput(rule, inputs, fuzzySets).Ok?
    ensures 0.0 <= RuleOutput(rule, inputs, fuzzySets).value.strength <= 1.0
  {
    RuleStrengthIsMin(rule, inputs, fuzzySets);
  }

  /** Strengths in [0, 1] stay in [0, 1] once grouped. */
  lemma {:induction false} GroupedInUnitRange(firings: seq<Firing>)
    requires forall i | 0 <= i < |firings| :: 0.0 <= firings[i].strength <= 1.0
    ensures forall t | t in Grouped(firings) :: forall s | s in Grouped(firings)[t] :: 0.0 <= s <= 1.0
  {
    if firings != [] {
      GroupedInUnitRange(firings[..|firings| - 1]);
    }
  }

  /** The rule loop succeeds exactly when every rule of the rule base
      fires. */
  lemma RuleOutputsOkIffAllFire(rules: seq<Rule>, inputs: Inputs, fuzzySets: FuzzySets)
    ensures RuleOutputs(rules, inputs, fuzzySets).Ok? <==> forall r | r in rules :: RuleOutput(r, inputs, fuzzySets).Ok?
  {
    var rs := RuleResults(rules, inputs, fuzzySets);
    if forall r | r in rules :: RuleOutput(r, inputs, fuzzySets).Ok? {
      forall i | 0 <= i < |rs| ensures rs[i].Ok? {
        assert rules[i] in rules;
      }
    }
  }

  /** A successful rule loop yields exactly the firings of the rules of the
      rule base. */
  lemma FiringsOfRules(rules: seq<Rule>, inputs: Inputs, fuzzySets: FuzzySets)
    requires RuleOutputs(rules, inputs, fuzzySets).Ok?
    ensures forall f :: f in RuleOutputs(rules, inputs, fuzzySets).value <==>
      exists r | r in rules :: RuleOutput(r, inputs, fuzzySets) == Ok(f)
  {
    var rs := RuleResults(rules, inputs, fuzzySets);
    var firings := RuleOutputs(rules, inputs, fuzzySets).value;
    forall f ensures f in firings <==> exists r | r in rules :: RuleOutput(r, inputs, fuzzySets) == Ok(f) {
      if f in firings {
        var i :| 0 <= i < |firings| && firings[i] == f;
        assert rs[i] == Ok(f) && rules[i] in rules;
      }
      if r :| r in rules && RuleOutput(r, inputs, fuzzySets) == Ok(f) {
        var i :| 0 <= i < |rules| && rules[i] == r;
        assert rs[i] == Ok(firings[i]);
      }
    }
  }

  /** Two rule bases with the same rules, in any order and with any
      repetition, succeed together and then yield the same firings. */
  lemma SameRulesSameFirings(rules: seq<Rule>, rules': seq<Rule>, inputs: Inputs, fuzzySets: FuzzySets)
    requires forall r :: r in rules <==> r in rules'
    ensures RuleOutputs(rules, inputs, fuzzySets).Ok? <==> RuleOutputs(rules', inputs, fuzzySets).Ok?
    ensures RuleOutputs(rules, inputs, fuzzySets).Ok? ==>
      forall f :: f in RuleOutputs(rules, inputs, fuzzySets).value <==> f in RuleOutputs(rules', inputs, fuzzySets).value
  {
    RuleOutputsOkIffAllFire(rules, inputs, fuzzySets);
    RuleOutputsOkIffAllFire(rules', inputs, fuzzySets);
    if RuleOutputs(rules, inputs, fuzzySets).Ok? {
      FiringsOfRules(rules, inputs, fuzzySets);
      FiringsOfRules(rules', inputs, fuzzySets);
    }
  }
}
