/** Option and Result, shared by every component. */
module Prelude {
  datatype Option<+T> = None | Some(value: T)

  datatype Result<+T, +E> = Ok(value: T) | Err(error: E)
}

/** The pigeonhole principle. */
module Pigeonhole {
  /** A sequence longer than the set it is drawn from repeats an element. */
  lemma {:induction false} Repeats<T>(s: seq<T>, pool: set<T>) returns (i: nat, j: nat)
    requires |s| > |pool| && forall x | x in s :: x in pool
    ensures i < j < |s| && s[i] == s[j]
    decreases |s|
  {
    var last := |s| - 1;
    if k :| 0 <= k < last && s[k] == s[last] {
      i, j := k, last;
    } else {
      assert s[last] in s;
      i, j := Repeats(s[..last], pool - {s[last]});
    }
  }
}
