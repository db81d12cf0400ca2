/** The minimum and maximum operators of Mamdani inference: np.fmin and
    np.fmax on two degrees, np.min and np.max over a non-empty list. */
module Extrema {

  /** np.fmin on two degrees: the smaller of the two. */
  function Min(x: real, y: real): (r: real)
    ensures r <= x && r <= y && (r == x || r == y)
  {
    if x <= y then x else y
  }

  /** np.fmax on two degrees: the larger of the two. */
  function Max(x: real, y: real): (r: real)
    ensures x <= r && y <= r && (r == x || r == y)
  {
    if x >= y then x else y
  }

  /** The smallest element of a non-empty list (np.min). */
  function MinOf(s: seq<real>): (r: real)
    requires s != []
    ensures forall i | 0 <= i < |s| :: r <= s[i]
    ensures exists i | 0 <= i < |s| :: r == s[i]
  {
    if |s| == 1 then s[0] else Min(MinOf(s[..|s| - 1]), s[|s| - 1])
  }

  /** The largest element of a non-empty list (np.max). */
  function MaxOf(s: seq<real>): (r: real)
    requires s != []
    ensures forall i | 0 <= i < |s| :: s[i] <= r
    ensures exists i | 0 <= i < |s| :: r == s[i]
  {
    if |s| == 1 then s[0] else Max(MaxOf(s[..|s| - 1]), s[|s| - 1])
  }

  /** np.max depends only on which values occur in the list, not on their
      order or how often they occur. */
  lemma MaxOfSameElements(s: seq<real>, s': seq<real>)
    requires s != [] && s' != []
    requires forall v :: v in s <==> v in s'
    ensures MaxOf(s) == MaxOf(s')
  {
    var i :| 0 <= i < |s| && MaxOf(s) == s[i];
    var i' :| 0 <= i' < |s'| && MaxOf(s') == s'[i'];
    assert s[i] in s';
    assert s'[i'] in s;
  }
}
