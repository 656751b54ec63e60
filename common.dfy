/** Optional values and results with an error branch, used wherever the
    program returns `undefined` or refuses to go on. */
module Common {

  datatype Option<+T> = None | Some(value: T)

  datatype Result<+T, +E> = Ok(value: T) | Err(error: E)

  /** No element occurs twice. */
  predicate NoDup<T(==)>(s: seq<T>) {
    forall p, q :: 0 <= p < q < |s| ==> s[p] != s[q]
  }

  /** Some element of a non-empty sequence has property `P` exactly when
      some element before the last one has it or the last one has it. */
  lemma SomeSplitLast<T>(s: seq<T>, init: seq<T>, P: T -> bool)
    requires s != [] && init == s[..|s| - 1]
    ensures (exists k :: 0 <= k < |s| && P(s[k])) <==> (exists k :: 0 <= k < |init| && P(init[k])) || P(s[|s| - 1])
  {
    if exists k :: 0 <= k < |s| && P(s[k]) {
      var k :| 0 <= k < |s| && P(s[k]);
      if k < |init| {
        assert init[k] == s[k];
      }
    }
    if exists k :: 0 <= k < |init| && P(init[k]) {
      var k :| 0 <= k < |init| && P(init[k]);
      assert init[k] == s[k];
    }
  }
}
