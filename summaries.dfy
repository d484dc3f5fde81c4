/** The finished-session summary and the history list it is appended to. */
module Summaries {
  import opened Types

  /** Exercise `i` has an entry in the results and no exercise before position `n` after it
      with an entry has the same name. */
  ghost predicate LastRecordedBelow(exercises: seq<Exercise>, results: Results, i: int, n: int)
    requires 0 <= i < n <= |exercises|
  {
    i in results &&
    forall j :: i < j < n && j in results ==> exercises[j].name != exercises[i].name
  }

  /** Exercise `i` has an entry in the results and no later exercise with an entry has the
      same name, so its sets are the ones the summary keeps under that name. */
  ghost predicate LastRecorded(exercises: seq<Exercise>, results: Results, i: int)
    requires 0 <= i < |exercises|
  {
    LastRecordedBelow(exercises, results, i, |exercises|)
  }

  /** The keys the loop has produced after visiting the exercises before position `n`: the
      names of those with an entry. */
  ghost predicate NamedKeysUpTo(exercises: seq<Exercise>, results: Results, named: map<string, ExerciseLog>, n: int)
    requires 0 <= n <= |exercises|
  {
    forall name :: name in named <==> exists i :: 0 <= i < n && i in results && exercises[i].name == name
  }

  /** The values the loop has produced after visiting the exercises before position `n`: under
      each name, the sets of the last of those exercises with an entry and that name. */
  ghost predicate NamedValuesUpTo(exercises: seq<Exercise>, results: Results, named: map<string, ExerciseLog>, n: int)
    requires 0 <= n <= |exercises|
  {
    forall i {:trigger LastRecordedBelow(exercises, results, i, n)} :: 0 <= i < n && LastRecordedBelow(exercises, results, i, n) ==>
      exercises[i].name in named && named[exercises[i].name] == ExerciseLog(exercises[i].name, results[i].sets)
  }

  /** `named` is what the loop has built after visiting the exercises before position `n`. */
  ghost predicate NamedUpTo(exercises: seq<Exercise>, results: Results, named: map<string, ExerciseLog>, n: int)
    requires 0 <= n <= |exercises|
  {
    NamedKeysUpTo(exercises, results, named, n) && NamedValuesUpTo(exercises, results, named, n)
  }

  /** `named` is what the summary holds for `results`: a key for the name of every exercise
      that has an entry (even one with no sets), and under each name that exercise's sets,
      the later of two same-named exercises winning. Comments are not carried over. */
  ghost predicate IsNamedResults(exercises: seq<Exercise>, results: Results, named: map<string, ExerciseLog>)
  {
    NamedUpTo(exercises, results, named, |exercises|)
  }

  /** The map after the loop body for exercise `n`. */
  function VisitExercise(exercises: seq<Exercise>, results: Results, named: map<string, ExerciseLog>, n: int): (next: map<string, ExerciseLog>)
    requires 0 <= n < |exercises|
  {
    if n in results then named[exercises[n].name := ExerciseLog(exercises[n].name, results[n].sets)] else named
  }

  /** One loop iteration keeps the key part of `NamedUpTo`. */
  lemma NamedKeysStep(exercises: seq<Exercise>, results: Results, named: map<string, ExerciseLog>, n: int)
    requires 0 <= n < |exercises|
    requires NamedKeysUpTo(exercises, results, named, n)
    ensures NamedKeysUpTo(exercises, results, VisitExercise(exercises, results, named, n), n + 1)
  {
  }

  /** One loop iteration keeps the value part of `NamedUpTo`: a name met again is
      overwritten, every other name keeps its value. */
  lemma NamedValuesStep(exercises: seq<Exercise>, results: Results, named: map<string, ExerciseLog>, n: int)
    requires 0 <= n < |exercises|
    requires NamedValuesUpTo(exercises, results, named, n)
    ensures NamedValuesUpTo(exercises, results, VisitExercise(exercises, results, named, n), n + 1)
  {
    var next := VisitExercise(exercises, results, named, n);
    forall i | 0 <= i < n + 1 && LastRecordedBelow(exercises, results, i, n + 1)
      ensures exercises[i].name in next && next[exercises[i].name] == ExerciseLog(exercises[i].name, results[i].sets)
    {
      if i < n {
        assert LastRecordedBelow(exercises, results, i, n);
        assert n in results ==> exercises[n].name != exercises[i].name;
      }
    }
  }

  /** The `forEach` over the selected complex that builds `namedResults`. */
  method BuildNamedResults(exercises: seq<Exercise>, results: Results) returns (named: map<string, ExerciseLog>)
    ensures IsNamedResults(exercises, results, named)
  {
    named := map[];
    var idx := 0;
    while idx < |exercises|
      invariant 0 <= idx <= |exercises|
      invariant NamedUpTo(exercises, results, named, idx)
    {
      NamedKeysStep(exercises, results, named, idx);
      NamedValuesStep(exercises, results, named, idx);
      if idx in results {
        var name := exercises[idx].name;
        named := named[name := ExerciseLog(name, results[idx].sets)];
      }
      idx := idx + 1;
    }
  }

  /** The recorded exercise with the same name as exercise `i` that comes last. */
  ghost function LastSameName(exercises: seq<Exercise>, results: Results, i: int): (j: int)
    requires 0 <= i < |exercises| && i in results
    ensures i <= j < |exercises| && exercises[j].name == exercises[i].name
    ensures LastRecorded(exercises, results, j)
    decreases |exercises| - i
  {
    if exists k :: i < k < |exercises| && k in results && exercises[k].name == exercises[i].name then
      var k :| i < k < |exercises| && k in results && exercises[k].name == exercises[i].name;
      LastSameName(exercises, results, k)
    else
      i
  }

  /** The description above fixes the summary completely: two maps that both satisfy it
      are the same map. */
  lemma NamedResultsUnique(exercises: seq<Exercise>, results: Results, a: map<string, ExerciseLog>, b: map<string, ExerciseLog>)
    requires IsNamedResults(exercises, results, a)
    requires IsNamedResults(exercises, results, b)
    ensures a == b
  {
    forall name | name in a
      ensures name in b && a[name] == b[name]
    {
      var i :| 0 <= i < |exercises| && i in results && exercises[i].name == name;
      var j := LastSameName(exercises, results, i);
    }
  }

  /** The example session: two differently named exercises, sets recorded for the first one
      only and the second never touched. The summary lists the first exercise alone. */
  lemma OnlyRecordedExercisesListed(a: Exercise, b: Exercise, p: Progress, named: map<string, ExerciseLog>)
    requires a.name != b.name
    requires IsNamedResults([a, b], map[0 := p], named)
    ensures named == map[a.name := ExerciseLog(a.name, p.sets)]
  {
    var ex := [a, b];
    assert LastRecorded(ex, map[0 := p], 0);
    assert forall name :: name in named <==> name == a.name by {
      forall name ensures name in named <==> name == a.name {
        if name == a.name {
          assert ex[0].name == name;
        }
      }
    }
  }

  /** The history list as the history tab shows it: `history.slice().reverse()`. */
  function NewestFirst(history: seq<Summary>): (view: seq<Summary>)
    ensures |view| == |history|
    ensures forall i :: 0 <= i < |history| ==> view[i] == history[|history| - 1 - i]
  {
    if history == [] then [] else [history[|history| - 1]] + NewestFirst(history[..|history| - 1])
  }

  /** A summary just appended to the history heads the history tab, above everything that
      was there before, in the same order as before. */
  lemma NewestFirstAfterSave(history: seq<Summary>, summary: Summary)
    ensures NewestFirst(history + [summary]) == [summary] + NewestFirst(history)
  {
  }
}
