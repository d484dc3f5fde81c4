/** The derived figures shown above the exercise: sets recorded, sets expected, and the
    progress bar width. */
module Metrics {
  import opened Types
  import opened SetLists

  /** Sets recorded for exercise `k` (`results[k]?.sets?.length || 0`). */
  function SetsAt(results: Results, k: int): (r: nat)
  {
    |EntryAt(results, k).sets|
  }

  /** Sets recorded for the exercises at positions 0 .. n - 1. */
  function RecordedBelow(results: Results, n: nat): (r: nat)
  {
    if n == 0 then 0 else RecordedBelow(results, n - 1) + SetsAt(results, n - 1)
  }

  /** `totalSets`: the reduce over the selected complex's positions; 0 without a selection. */
  function TotalSets(selected: Option<Selection>, results: Results): (r: nat)
    ensures selected.None? ==> r == 0
  {
    if selected.None? then 0 else RecordedBelow(results, |selected.value.exercises|)
  }

  /** Sum of the target set counts of a complex. */
  function TargetSum(exercises: seq<Exercise>): (r: nat)
  {
    if exercises == [] then 0 else TargetSum(exercises[..|exercises| - 1]) + exercises[|exercises| - 1].targetSets
  }

  /** `expectedSets`: the target sum, replaced by 1 when it is 0 or nothing is selected,
      so the progress division is always defined. */
  function ExpectedSets(selected: Option<Selection>): (r: nat)
    ensures r >= 1
    ensures selected.Some? && TargetSum(selected.value.exercises) > 0 ==> r == TargetSum(selected.value.exercises)
    ensures selected.None? || TargetSum(selected.value.exercises) == 0 ==> r == 1
  {
    if selected.None? then 1
    else var sum := TargetSum(selected.value.exercises); if sum == 0 then 1 else sum
  }

  /** `progress`: min(totalSets / expectedSets * 100, 100), in percent. The bar is never
      below zero nor over-full, and it is full exactly when the recorded sets reach the
      expected ones. */
  function Percent(total: nat, expected: nat): (r: real)
    requires expected >= 1
    ensures 0.0 <= r <= 100.0
    ensures r == 100.0 <==> total >= expected
    ensures total < expected ==> r == (total as real) * 100.0 / (expected as real)
  {
    var p := (total as real / expected as real) * 100.0;
    if p < 100.0 then p else 100.0
  }

  /** The progress bar of the session: empty with nothing selected, full exactly when the
      recorded sets of the complex reach its expected sets. */
  function ProgressOf(selected: Option<Selection>, results: Results): (r: real)
    ensures 0.0 <= r <= 100.0
    ensures r == 100.0 <==> TotalSets(selected, results) >= ExpectedSets(selected)
    ensures selected.None? ==> r == 0.0
  {
    Percent(TotalSets(selected, results), ExpectedSets(selected))
  }

  /** More recorded sets never make the bar shorter (for fixed targets). */
  lemma PercentMonotone(t1: nat, t2: nat, expected: nat)
    requires expected >= 1
    requires t1 <= t2
    ensures Percent(t1, expected) <= Percent(t2, expected)
  {
    var e := expected as real;
    assert (t1 as real) / e <= (t2 as real) / e;
  }

  /** Replacing the entry of exercise `k` changes the running count below `n` only when
      `k` lies below `n`, and then by the difference of the two set counts. */
  lemma {:induction false} RecordedAfterUpdate(results: Results, n: nat, k: int, p: Progress)
    ensures RecordedBelow(results[k := p], n)
            == RecordedBelow(results, n) + (if 0 <= k < n then |p.sets| - SetsAt(results, k) else 0)
  {
    if n > 0 {
      RecordedAfterUpdate(results, n - 1, k, p);
    }
  }

  /** `totalSets` counts only entries inside the selected complex: writing an entry at a
      position outside it leaves the total alone; inside it, the total moves by the change in
      that exercise's set count. */
  lemma TotalAfterUpdate(selected: Option<Selection>, results: Results, k: int, p: Progress)
    ensures selected.None? || !(0 <= k < |selected.value.exercises|)
            ==> TotalSets(selected, results[k := p]) == TotalSets(selected, results)
    ensures selected.Some? && 0 <= k < |selected.value.exercises|
            ==> TotalSets(selected, results[k := p]) == TotalSets(selected, results) + |p.sets| - SetsAt(results, k)
  {
    if selected.Some? {
      RecordedAfterUpdate(results, |selected.value.exercises|, k, p);
    }
  }

  /** Appending one set to an exercise of the selected complex raises the total by one,
      and the progress bar does not shrink. */
  lemma AppendCountsOne(selected: Option<Selection>, results: Results, k: int, s: SetRecord)
    requires selected.Some? && 0 <= k < |selected.value.exercises|
    ensures TotalSets(selected, results[k := Progress(EntryAt(results, k).sets + [s], EntryAt(results, k).comment)])
            == TotalSets(selected, results) + 1
    ensures ProgressOf(selected, results)
            <= ProgressOf(selected, results[k := Progress(EntryAt(results, k).sets + [s], EntryAt(results, k).comment)])
  {
    var after := results[k := Progress(EntryAt(results, k).sets + [s], EntryAt(results, k).comment)];
    TotalAfterUpdate(selected, results, k, after[k]);
    PercentMonotone(TotalSets(selected, results), TotalSets(selected, after), ExpectedSets(selected));
  }

  /** Deleting a set that exists from an exercise of the selected complex lowers the total
      by one. */
  lemma DeleteCountsOne(selected: Option<Selection>, results: Results, k: int, i: int)
    requires selected.Some? && 0 <= k < |selected.value.exercises|
    requires 0 <= i < |EntryAt(results, k).sets|
    ensures TotalSets(selected, results[k := Progress(DropAt(EntryAt(results, k).sets, i), EntryAt(results, k).comment)])
            == TotalSets(selected, results) - 1
  {
    var p := Progress(DropAt(EntryAt(results, k).sets, i), EntryAt(results, k).comment);
    TotalAfterUpdate(selected, results, k, p);
  }

  /** Overwriting a set under edit leaves the total where it was. */
  lemma EditKeepsCount(selected: Option<Selection>, results: Results, k: int, j: nat, s: SetRecord)
    requires j < |EntryAt(results, k).sets|
    ensures TotalSets(selected, results[k := Progress(PutAt(EntryAt(results, k).sets, j, s), EntryAt(results, k).comment)])
            == TotalSets(selected, results)
  {
    var p := Progress(PutAt(EntryAt(results, k).sets, j, s), EntryAt(results, k).comment);
    TotalAfterUpdate(selected, results, k, p);
  }

  /** The example session: a complex with targets 3 and 2, three sets logged on the first
      exercise and none on the second, shows 60 percent. */
  lemma ThreeOfFiveIsSixty(a: Exercise, b: Exercise, s1: SetRecord, s2: SetRecord, s3: SetRecord)
    requires a.targetSets == 3 && b.targetSets == 2
    ensures var sel := Some(Selection("push", [a, b]));
            var res := map[0 := Progress([s1, s2, s3], "")];
            TotalSets(sel, res) == 3 && ExpectedSets(sel) == 5 && ProgressOf(sel, res) == 60.0
  {
    var ex := [a, b];
    var sel := Some(Selection("push", ex));
    var res := map[0 := Progress([s1, s2, s3], "")];
    assert ex[..1] == [a];
    assert [a][..0] == [];
    assert TargetSum([a]) == 3;
    assert TargetSum(ex) == 5;
    assert SetsAt(res, 0) == 3 && SetsAt(res, 1) == 0;
    assert RecordedBelow(res, 1) == 3;
    assert RecordedBelow(res, 2) == 3;
    assert (3 as real / 5 as real) * 100.0 == 60.0;
  }

  /** A complex whose exercises declare no target sets still divides by 1: nothing logged
      shows 0 percent. */
  lemma NoTargetsDividesByOne(exercises: seq<Exercise>)
    requires forall i :: 0 <= i < |exercises| ==> exercises[i].targetSets == 0
    ensures ExpectedSets(Some(Selection("", exercises))) == 1
    ensures ProgressOf(Some(Selection("", exercises)), map[]) == 0.0
  {
    ZeroTargets(exercises);
    EmptyResultsRecordNothing(|exercises|);
  }

  lemma {:induction false} ZeroTargets(exercises: seq<Exercise>)
    requires forall i :: 0 <= i < |exercises| ==> exercises[i].targetSets == 0
    ensures TargetSum(exercises) == 0
  {
    if exercises != [] {
      ZeroTargets(exercises[..|exercises| - 1]);
    }
  }

  lemma {:induction false} EmptyResultsRecordNothing(n: nat)
    ensures RecordedBelow(map[], n) == 0
  {
    if n > 0 {
      EmptyResultsRecordNothing(n - 1);
    }
  }
}
