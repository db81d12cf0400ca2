/** Failures of the inference pipeline and the Result type that carries them.

    The Python code raises a KeyError, a ValueError or an IndexError where a
    lookup or a reduction fails; here each of those becomes a tagged Error
    value, returned in the order in which the Python code would raise it. */
module Results {

  datatype Error =
    | MissingInput(variable: string)     // inputs[var] with var absent from the application
    | UnknownVariable(variable: string)  // fuzzy_sets[var] with no sets registered for var
    | UnknownLabel(term: string)         // memberships[label] with no set carrying that label
    | EmptyAntecedents                   // np.min of the empty antecedent list
    | EmptyVariable(variable: string)    // fuzzy_sets[output_var][0] on an empty list
    | NoRuleFired                        // centroid of an output curve whose mass is zero

  datatype Result<T> = Ok(value: T) | Err(error: Error)

  /** Runs through `rs` in order and stops at the first failure, as a Python
      loop does when one of its iterations raises: either every entry
      succeeded and the values come back in order, or the first failure is
      the result. */
  function Collect<T>(rs: seq<Result<T>>): (r: Result<seq<T>>)
    ensures r.Ok? <==> forall i | 0 <= i < |rs| :: rs[i].Ok?
    ensures r.Ok? ==> |r.value| == |rs| && forall i | 0 <= i < |rs| :: rs[i] == Ok(r.value[i])
    ensures r.Err? ==> exists k | 0 <= k < |rs| :: rs[k] == Err(r.error) && forall i | 0 <= i < k :: rs[i].Ok?
  {
    if rs == [] then Ok([])
    else
      var n := |rs| - 1;
      var init := rs[..n];
      assert forall i | 0 <= i < n :: init[i] == rs[i];
      match Collect(init)
      case Err(e) => Err(e)
      case Ok(vs) =>
        match rs[n]
        case Err(e) => Err(e)
        case Ok(v) => Ok(vs + [v])
  }

  /** When the entries before `k` succeeded and entry `k` failed, Collect
      fails with entry `k`'s error. */
  lemma CollectFirstErr<T>(rs: seq<Result<T>>, k: nat)
    requires k < |rs| && rs[k].Err?
    requires forall i | 0 <= i < k :: rs[i].Ok?
    ensures Collect(rs) == Err(rs[k].error)
  {
    var r := Collect(rs);
    assert r.Err?;
    var j :| 0 <= j < |rs| && rs[j] == Err(r.error) && forall i | 0 <= i < j :: rs[i].Ok?;
    assert j == k;
  }

  /** One more successful entry extends the collected prefix by its value:
      the step of a loop that appends to its results list. */
  lemma CollectPrefixOk<T>(rs: seq<Result<T>>, i: nat, vs: seq<T>, v: T)
    requires i < |rs| && Collect(rs[..i]) == Ok(vs) && rs[i] == Ok(v)
    ensures Collect(rs[..i + 1]) == Ok(vs + [v])
  {
    assert rs[..i + 1][..i] == rs[..i];
  }

  /** A failing entry after a successful prefix is the failure of the
      whole run: the loop returns its error there. */
  lemma CollectPrefixErr<T>(rs: seq<Result<T>>, i: nat)
    requires i < |rs| && Collect(rs[..i]).Ok? && rs[i].Err?
    ensures Collect(rs) == Err(rs[i].error)
  {
    assert forall j | 0 <= j < i :: rs[..i][j] == rs[j];
    CollectFirstErr(rs, i);
  }
}
