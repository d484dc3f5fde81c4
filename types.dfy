/** Values the workout screen works with: the exercise catalog, the sets a user logs,
    the per-exercise progress and the session summaries kept in the history. */
module Types {

  datatype Option<T> = None | Some(value: T)

  /** One logged set: the weight lifted and the repetitions done. */
  datatype SetRecord = SetRecord(weight: int, reps: int)

  /** What one number field of the set-entry form holds when the form is submitted.
      The fields are number inputs with the default step of 1, so a filled field is an integer. */
  datatype FormValue = Blank | Filled(number: int)

  /** A catalog exercise. Only the name and the target set count take part in the logic;
      the target reps, type, recommended weight, description and tips are display text. */
  datatype Exercise = Exercise(name: string, targetSets: nat)

  /** One entry of the catalog file: a complex id, its display name and its exercises. */
  datatype CatalogEntry = CatalogEntry(id: string, complex: string, exercises: seq<Exercise>)

  /** The selected complex: its exercise list, together with the catalog id it was taken from
      (the id stands for the identity of the list object). */
  datatype Selection = Selection(id: string, exercises: seq<Exercise>)

  /** What has been recorded for one exercise: the sets in insertion order and a comment. */
  datatype Progress = Progress(sets: seq<SetRecord>, comment: string)

  /** The set the user chose to edit. */
  datatype EditTarget = EditTarget(exerciseIndex: int, setIndex: nat)

  /** One exercise inside a saved summary. */
  datatype ExerciseLog = ExerciseLog(name: string, sets: seq<SetRecord>)

  /** A finished session as it is appended to the history. */
  datatype Summary = Summary(
    date: string,
    complex: string,
    results: map<string, ExerciseLog>,
    trainingRating: int,
    conditionRating: int,
    trainingComment: string)

  /** The message shown in the error line of the screen. */
  datatype Problem = MissingSetInput | CatalogUnavailable

  /** Outcome of sending a summary to the server. */
  datatype SaveStatus = Saved | SaveFailed

  /** Recorded results, keyed by exercise index within the selected complex. */
  type Results = map<int, Progress>

  /** The entry for exercise `k`, or a fresh empty one when nothing is recorded yet
      (`results[key] || { sets: [], comment: "" }`). */
  function EntryAt(results: Results, k: int): (r: Progress)
    ensures k in results ==> r == results[k]
    ensures k !in results ==> r.sets == [] && r.comment == ""
  {
    if k in results then results[k] else Progress([], "")
  }
}
