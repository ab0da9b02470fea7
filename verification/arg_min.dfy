/**
 * Arg-min with first-wins ties, the selection rule shared by
 * `Dijkstra.findNearestCity` and the two warehouse selectors of
 * `OrderProcessor`: scan the candidates in input order, skip the ones
 * without a value, and replace the current best only on a strictly
 * smaller value.
 */
module ArgMin {
  import opened Wrappers

  /**
   * Index `i` holds a value, every earlier value is strictly larger and no
   * later value is smaller.
   */
  ghost predicate IsFirstMin(ks: seq<Option<nat>>, i: nat) {
    && i < |ks|
    && ks[i].Some?
    && (forall j :: 0 <= j < i && ks[j].Some? ==> ks[i].value < ks[j].value)
    && (forall j :: i < j < |ks| && ks[j].Some? ==> ks[i].value <= ks[j].value)
  }

  ghost predicate AllAbsent(ks: seq<Option<nat>>) {
    forall j :: 0 <= j < |ks| ==> ks[j].None?
  }

  /**
   * The scan the Java loops perform, with `None` in the role of the initial
   * `Integer.MAX_VALUE`.
   */
  method FirstMinIndex(ks: seq<Option<nat>>) returns (r: Option<nat>)
    ensures r.None? <==> AllAbsent(ks)
    ensures r.Some? ==> IsFirstMin(ks, r.value)
  {
    r := None;
    for i := 0 to |ks|
      invariant r.None? <==> AllAbsent(ks[..i])
      invariant r.Some? ==> IsFirstMin(ks[..i], r.value)
    {
      if ks[i].Some? && (r.None? || ks[i].value < ks[r.value].value) {
        r := Some(i);
      }
    }
    assert ks[..|ks|] == ks;
  }

  /** The rule singles out one index, so the selection is fully determined. */
  lemma FirstMinUnique(ks: seq<Option<nat>>, i: nat, j: nat)
    requires IsFirstMin(ks, i) && IsFirstMin(ks, j)
    ensures i == j
  {
  }
}
