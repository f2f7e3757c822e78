/** Small value types shared by the models: an optional value (Python's
    `None`, or an exception), Python's indexing, and the reals extended with
    `+∞` (numpy's `np.inf`). */
module Basics {

  datatype Option<+T> = None | Some(value: T)

  /** Python's (and numpy's) `s[i]`: negative indices count from the end; anything else
      outside the list raises `IndexError` (`None`). */
  function PyIndex<T>(s: seq<T>, i: int): (r: Option<T>)
    ensures r.Some? <==> -|s| <= i < |s|
    ensures 0 <= i < |s| ==> r == Some(s[i])
    ensures -|s| <= i < 0 ==> r == Some(s[|s| + i])
  {
    if 0 <= i < |s| then Some(s[i])
    else if -|s| <= i < 0 then Some(s[|s| + i])
    else None
  }

  /** A distance that may be `np.inf`. */
  datatype Ext = Fin(v: real) | Inf

  /** Python's `<` on floats, restricted to finite values and `+∞`. */
  predicate Less(a: Ext, b: Ext) {
    match (a, b)
    case (Fin(x), Fin(y)) => x < y
    case (Fin(_), Inf) => true
    case (Inf, _) => false
  }

  predicate LessEq(a: Ext, b: Ext) {
    a == b || Less(a, b)
  }

  /** `<` on extended reals is a strict total order. */
  lemma LessIsStrictTotal(a: Ext, b: Ext, c: Ext)
    ensures !Less(a, a)
    ensures Less(a, b) && Less(b, c) ==> Less(a, c)
    ensures a != b ==> Less(a, b) || Less(b, a)
    ensures !Less(a, b) <==> LessEq(b, a)
  {
  }
}
