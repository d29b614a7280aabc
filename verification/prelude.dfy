/** What several parts of the model share: values that may be absent, sequences without repetition, and
    picking elements out of a sequence. */
module Prelude {
  datatype Option<+T> = None | Some(value: T)

  ghost predicate Distinct<T>(s: seq<T>) { forall i, j | 0 <= i < j < |s| :: s[i] != s[j] }

  /** `kept` is what `all` holds at the positions `at`, in order, which are those of good elements. */
  ghost predicate Picks<T>(all: seq<T>, kept: seq<T>, at: seq<nat>, good: T -> bool) {
    && |at| == |kept|
    && (forall i, j | 0 <= i < j < |at| :: at[i] < at[j])
    && (forall i | 0 <= i < |at| :: at[i] < |all| && kept[i] == all[at[i]])
    && (forall k: nat | k < |all| :: k in at <==> good(all[k]))
  }

  lemma PicksNot<T>(all: seq<T>, kept: seq<T>, at: seq<nat>, good: T -> bool, e: T)
    requires Picks(all, kept, at, good) && !good(e)
    ensures Picks(all + [e], kept, at, good)
  {
    assert forall k: nat | k < |all| :: (all + [e])[k] == all[k];
    assert (all + [e])[|all|] == e;
    assert forall i | 0 <= i < |at| :: at[i] < |all|;
  }

  lemma PicksToo<T>(all: seq<T>, kept: seq<T>, at: seq<nat>, good: T -> bool, e: T)
    requires Picks(all, kept, at, good) && good(e)
    ensures Picks(all + [e], kept + [e], at + [|all|], good)
  {
    var more := at + [|all|];
    assert forall k: nat | k < |all| :: (all + [e])[k] == all[k];
    assert (all + [e])[|all|] == e && more[|at|] == |all|;
    assert forall i | 0 <= i < |at| :: more[i] == at[i] && at[i] < |all|;
    forall k: nat | k < |all| + 1 ensures k in more <==> good((all + [e])[k]) {
      assert k in more <==> k in at || k == |all|;
    }
  }
}
