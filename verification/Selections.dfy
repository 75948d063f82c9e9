/** Positions picked out of a list, in order. */
module Selections {
  /** `at` lists in increasing order the positions whose flag is set. */
  ghost predicate Selects(flags: seq<bool>, at: seq<nat>) {
    && (forall j, k :: 0 <= j < k < |at| ==> at[j] < at[k])
    && (forall j :: 0 <= j < |at| ==> at[j] < |flags|)
    && forall i :: 0 <= i < |flags| ==> (flags[i] <==> i in at)
  }

  lemma NoneSelected(at: seq<nat>)
    requires Selects([], at)
    ensures at == []
  {
    var padded := at + [0];
    assert padded[0] >= 0;
  }

  lemma LastSelected(flags: seq<bool>, at: seq<nat>)
    requires flags != [] && Selects(flags, at) && flags[|flags| - 1]
    ensures at != [] && at[|at| - 1] == |flags| - 1 && at == at[..|at| - 1] + [|flags| - 1]
    ensures Selects(flags[..|flags| - 1], at[..|at| - 1])
  {
    var n, m := |flags| - 1, |at| - 1;
    var j :| 0 <= j < |at| && at[j] == n;
    assert at[m] < |flags|;
    assert j == m;
    forall i | 0 <= i < n
      ensures i in at <==> i in at[..m]
    {
      if i in at {
        var k :| 0 <= k < |at| && at[k] == i;
        assert at[..m][k] == i;
      }
    }
  }

  lemma LastUnselected(flags: seq<bool>, at: seq<nat>)
    requires flags != [] && Selects(flags, at) && !flags[|flags| - 1]
    ensures Selects(flags[..|flags| - 1], at)
  {
    forall j | 0 <= j < |at|
      ensures at[j] < |flags| - 1
    {
      assert at[j] in at;
    }
  }
}
