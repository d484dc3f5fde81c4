/** The workout screen's state and its event handlers. Every piece of component state is a
    field; every handler is a method whose `modifies` frame names the fields it sets, so all
    other fields are unchanged by construction. */
module Session {
  import opened Types
  import opened SetLists
  import RestTimer
  import Catalog
  import Summaries

  /** Display name recorded when the selected list is not found in the catalog. */
  const NotFoundName: string := "Комплекс не найден"

  /** Both ratings and the session comment return to these after a save. */
  const DefaultRating: int := 5

  /** The display name the summary records for a selection. The id found for the selection
      is tested for truthiness, so an empty id counts as not found even when the catalog has
      an entry under it. */
  function ComplexName(selected: Selection, names: map<string, string>): (r: string)
    ensures selected.id == "" || selected.id !in names ==> r == NotFoundName
    ensures selected.id != "" && selected.id in names ==> r == names[selected.id]
  {
    if selected.id != "" && selected.id in names then names[selected.id] else NotFoundName
  }

  /** Whether a pending edit applies to the exercise on screen. */
  predicate EditsExercise(editing: Option<EditTarget>, exercise: int)
  {
    editing.Some? && editing.value.exerciseIndex == exercise
  }

  class TrainingSession {
    var complexes: map<string, seq<Exercise>>
    var names: map<string, string>
    var selected: Option<Selection>
    var currentExercise: nat
    var results: Results
    var editing: Option<EditTarget>
    var restTime: Option<int>
    var timerRunning: bool
    var history: seq<Summary>
    var error: Option<Problem>
    var saveStatus: Option<SaveStatus>
    var trainingRating: int
    var conditionRating: int
    var trainingComment: string
    var finished: bool

    /** The screen as first rendered; `storedHistory` is what the browser had kept. */
    constructor (storedHistory: seq<Summary>)
      ensures complexes == map[] && names == map[] && selected == None
      ensures currentExercise == 0 && results == map[] && editing == None
      ensures restTime == None && !timerRunning && history == storedHistory
      ensures error == None && saveStatus == None
      ensures trainingRating == DefaultRating && conditionRating == DefaultRating
      ensures trainingComment == "" && !finished
    {
      complexes, names, selected := map[], map[], None;
      currentExercise, results, editing := 0, map[], None;
      restTime, timerRunning, history := None, false, storedHistory;
      error, saveStatus := None, None;
      trainingRating, conditionRating := DefaultRating, DefaultRating;
      trainingComment, finished := "", false;
    }

    /** A complex is selected and the index points into it: the exercise panel is shown. */
    predicate OnExercise()
      reads this
    {
      selected.Some? && currentExercise < |selected.value.exercises|
    }

    /** The catalog load at start-up. `fetched` is the parsed file, or None when the request or
        the parsing failed. The first id of the file becomes the selection. */
    method LoadCatalog(fetched: Option<seq<CatalogEntry>>)
      modifies this`complexes, this`names, this`selected, this`error
      ensures fetched.None? ==> error == Some(CatalogUnavailable)
      ensures fetched.None? ==> complexes == old(complexes) && names == old(names) && selected == old(selected)
      ensures fetched.Some? ==> error == old(error)
      ensures fetched.Some? ==> complexes.Keys == names.Keys
      ensures fetched.Some? ==> forall id :: id in complexes <==> exists i :: 0 <= i < |fetched.value| && fetched.value[i].id == id
      ensures fetched.Some? ==> forall i :: 0 <= i < |fetched.value| && Catalog.LastWithId(fetched.value, i) ==>
                complexes[fetched.value[i].id] == fetched.value[i].exercises && names[fetched.value[i].id] == fetched.value[i].complex
      ensures fetched.Some? && fetched.value == [] ==> selected == None
      ensures fetched.Some? && fetched.value != [] ==>
                fetched.value[0].id in complexes && selected == Some(Selection(fetched.value[0].id, complexes[fetched.value[0].id]))
    {
      if fetched.None? {
        error := Some(CatalogUnavailable);
        return;
      }
      var entries := fetched.value;
      var grouped, catalogNames := Catalog.GroupCatalog(entries);
      complexes, names := grouped, catalogNames;
      if entries == [] {
        selected := None;
      } else {
        var first := entries[0].id;
        selected := Some(Selection(first, grouped[first]));
      }
    }

    /** Choosing an option of the complex picker. Only the selection changes: the recorded
        results and the exercise index stay as they were. An id outside the catalog (the
        placeholder option) clears the selection. */
    method SelectComplex(id: string)
      modifies this`selected
      ensures selected == if id in complexes then Some(Selection(id, complexes[id])) else None
    {
      selected := if id in complexes then Some(Selection(id, complexes[id])) else None;
    }

    /** Delete button of set `setIndex` of exercise `exerciseIndex`: the set is removed and the
        later ones move down one place. An index outside the list removes nothing, but the
        exercise then has an entry even if it had none. */
    method DeleteSet(exerciseIndex: int, setIndex: int)
      modifies this`results
      ensures exerciseIndex in results
      ensures forall k :: k != exerciseIndex ==> (k in results <==> k in old(results))
      ensures forall k :: k in results && k != exerciseIndex ==> results[k] == old(results)[k]
      ensures results[exerciseIndex].comment == EntryAt(old(results), exerciseIndex).comment
      ensures results[exerciseIndex].sets == DropAt(EntryAt(old(results), exerciseIndex).sets, setIndex)
    {
      var prev := EntryAt(results, exerciseIndex);
      results := results[exerciseIndex := Progress(DropAt(prev.sets, setIndex), prev.comment)];
    }

    /** Edit button of a set: the form now overwrites that set instead of appending. */
    method BeginEdit(exerciseIndex: int, setIndex: nat)
      modifies this`editing
      ensures editing == Some(EditTarget(exerciseIndex, setIndex))
    {
      editing := Some(EditTarget(exerciseIndex, setIndex));
    }

    /** Cancel button under the form: leaves edit mode, no set changes. */
    method CancelEdit()
      modifies this`editing
      ensures editing == None
    {
      editing := None;
    }

    /** Submitting the set form. A blank field is rejected with an error and nothing else
        changes; any number, zero and negative ones included, is accepted. An accepted set
        overwrites the set under edit when the edit is for the exercise on screen, and is
        appended otherwise. Edit mode ends, and a new 60-second rest countdown replaces any
        running one. */
    method SaveSet(weight: FormValue, reps: FormValue)
      requires EditsExercise(editing, currentExercise) ==>
                 editing.value.setIndex <= |EntryAt(results, currentExercise).sets|
      modifies this`results, this`editing, this`restTime, this`timerRunning, this`error
      ensures weight.Blank? || reps.Blank? ==>
                && error == Some(MissingSetInput)
                && results == old(results) && editing == old(editing)
                && restTime == old(restTime) && timerRunning == old(timerRunning)
      ensures weight.Filled? && reps.Filled? ==>
                && error == None && editing == None
                && RestTimer.Countdown(restTime, timerRunning) == RestTimer.Started()
                && (forall k :: k != currentExercise ==> (k in results <==> k in old(results)))
                && (forall k :: k in results && k != currentExercise ==> results[k] == old(results)[k])
                && currentExercise in results
                && results[currentExercise].comment == EntryAt(old(results), currentExercise).comment
      ensures weight.Filled? && reps.Filled? && !EditsExercise(old(editing), currentExercise) ==>
                results[currentExercise].sets
                == EntryAt(old(results), currentExercise).sets + [SetRecord(weight.number, reps.number)]
      ensures weight.Filled? && reps.Filled? && EditsExercise(old(editing), currentExercise) ==>
                results[currentExercise].sets
                == PutAt(EntryAt(old(results), currentExercise).sets, old(editing).value.setIndex,
                         SetRecord(weight.number, reps.number))
    {
      if weight.Blank? || reps.Blank? {
        error := Some(MissingSetInput);
        return;
      }
      var record := SetRecord(weight.number, reps.number);
      var prev := EntryAt(results, currentExercise);
      var sets;
      if EditsExercise(editing, currentExercise) {
        sets := PutAt(prev.sets, editing.value.setIndex, record);
      } else {
        sets := prev.sets + [record];
      }
      results := results[currentExercise := Progress(sets, prev.comment)];
      editing := None;
      restTime := Some(RestTimer.RestSeconds);
      timerRunning := true;
      error := None;
    }

    /** One second of the rest interval. */
    method Tick()
      modifies this`restTime, this`timerRunning
      ensures RestTimer.Countdown(restTime, timerRunning)
              == RestTimer.Tick(RestTimer.Countdown(old(restTime), old(timerRunning)))
    {
      if timerRunning {
        timerRunning := restTime != Some(1);
        restTime := RestTimer.NextRest(restTime);
      }
    }

    /** Typing in the exercise comment box: only that exercise's comment changes. */
    method SetComment(text: string)
      modifies this`results
      ensures forall k :: k != currentExercise ==> (k in results <==> k in old(results))
      ensures forall k :: k in results && k != currentExercise ==> results[k] == old(results)[k]
      ensures currentExercise in results
      ensures results[currentExercise] == Progress(EntryAt(old(results), currentExercise).sets, text)
    {
      var prev := EntryAt(results, currentExercise);
      results := results[currentExercise := Progress(prev.sets, text)];
    }

    /** A numbered tab button: jumps to that exercise of the complex. */
    method Jump(i: nat)
      requires OnExercise() && i < |selected.value.exercises|
      modifies this`currentExercise
      ensures currentExercise == i && OnExercise()
    {
      currentExercise := i;
    }

    /** The back button: one exercise back, staying on the first one. */
    method Back()
      requires OnExercise()
      modifies this`currentExercise
      ensures currentExercise == if old(currentExercise) == 0 then 0 else old(currentExercise) - 1
      ensures OnExercise()
    {
      currentExercise := if currentExercise == 0 then 0 else currentExercise - 1;
    }

    /** The next button: one exercise forward, or on the last exercise the end of the session. */
    method Next()
      requires OnExercise()
      modifies this`currentExercise, this`finished
      ensures old(currentExercise) + 1 < |selected.value.exercises| ==>
                currentExercise == old(currentExercise) + 1 && finished == old(finished)
      ensures old(currentExercise) + 1 >= |selected.value.exercises| ==>
                currentExercise == old(currentExercise) && finished
      ensures OnExercise()
    {
      if currentExercise + 1 < |selected.value.exercises| {
        currentExercise := currentExercise + 1;
      } else {
        FinishTraining();
      }
    }

    /** Ending the session: only possible with a complex selected. */
    method FinishTraining()
      modifies this`finished
      ensures finished == (old(finished) || selected.Some?)
    {
      if selected.None? {
        return;
      }
      finished := true;
    }

    /** The two rating sliders and the session comment box; the values are stored unchecked. */
    method SetTrainingRating(value: int)
      modifies this`trainingRating
      ensures trainingRating == value
    {
      trainingRating := value;
    }

    method SetConditionRating(value: int)
      modifies this`conditionRating
      ensures conditionRating == value
    {
      conditionRating := value;
    }

    method SetTrainingComment(text: string)
      modifies this`trainingComment
      ensures trainingComment == text
    {
      trainingComment := text;
    }

    /** The save button of a finished session. The summary takes, by exercise name, the sets
        of every exercise of the complex that has an entry; `posted` is whether the server
        accepted it, which only decides the status message. The summary is appended to the
        history either way, and the session returns to its start values. */
    method SaveTrainingSummary(date: string, posted: bool) returns (summary: Summary)
      requires selected.Some?
      modifies this`history, this`results, this`selected, this`currentExercise, this`saveStatus
      modifies this`trainingRating, this`conditionRating, this`trainingComment, this`finished
      ensures summary.date == date
      ensures summary.complex == ComplexName(old(selected).value, names)
      ensures Summaries.IsNamedResults(old(selected).value.exercises, old(results), summary.results)
      ensures summary.trainingRating == old(trainingRating) && summary.conditionRating == old(conditionRating)
      ensures summary.trainingComment == old(trainingComment)
      ensures saveStatus == Some(if posted then Saved else SaveFailed)
      ensures history == old(history) + [summary]
      ensures results == map[] && selected == None && currentExercise == 0
      ensures trainingRating == DefaultRating && conditionRating == DefaultRating
      ensures trainingComment == "" && !finished
    {
      var complexName := ComplexName(selected.value, names);
      var named := Summaries.BuildNamedResults(selected.value.exercises, results);
      summary := Summary(date, complexName, named, trainingRating, conditionRating, trainingComment);
      saveStatus := Some(if posted then Saved else SaveFailed);
      history := history + [summary];
      results, selected, currentExercise := map[], None, 0;
      trainingRating, conditionRating := DefaultRating, DefaultRating;
      trainingComment, finished := "", false;
    }
  }

  /** What a caller can conclude from the handler contracts alone: an edit overwrites in
      place, the next save appends again, and a blank field is turned away. */
  method EditThenAppend(w1: int, r1: int, w2: int, r2: int, w3: int, r3: int)
  {
    var s := new TrainingSession([]);
    s.SaveSet(Filled(w1), Filled(r1));
    s.SaveSet(Filled(w2), Filled(r2));
    assert s.results[0].sets == [SetRecord(w1, r1), SetRecord(w2, r2)];
    s.BeginEdit(0, 1);
    s.SaveSet(Filled(w3), Filled(r3));
    assert s.results[0].sets == [SetRecord(w1, r1), SetRecord(w3, r3)];
    assert s.editing == None;
    s.SaveSet(Filled(0), Filled(-1));
    assert s.results[0].sets == [SetRecord(w1, r1), SetRecord(w3, r3), SetRecord(0, -1)];
    s.DeleteSet(0, 0);
    assert s.results[0].sets == [SetRecord(w3, r3), SetRecord(0, -1)];
    s.SaveSet(Blank, Filled(5));
    assert s.error == Some(MissingSetInput) && |s.results[0].sets| == 2;
  }
}
