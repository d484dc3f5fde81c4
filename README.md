# Training app: the workout session as a verified state machine

This project models the logic of the workout screen of a personal training tracker, the
`TrainingApp` React component. A user picks an exercise complex from a catalog, logs sets
(weight × reps) for each exercise, edits or deletes them, comments on each exercise, rests
for 60 seconds after each set, moves between exercises, finishes, rates the session and saves
a summary into the history.

Without its markup and effects, the component is a small event-driven machine:

- `types.dfy` (`Types`): the values: catalog exercises and entries, set records, per-exercise
  progress, edit targets, summaries, and the form's field values.
- `session.dfy` (`Session`): the class `TrainingSession`. Each piece of component state is a
  field of this class. Each event handler is a method. A method's `modifies` frame lists
  exactly the fields the handler sets, so every other field is provably unchanged.
- `set_lists.dfy` (`SetLists`): delete by position (the index-keyed `filter`) and overwrite of
  the set under edit.
- `metrics.dfy` (`Metrics`): the `totalSets`, `expectedSets` and `progress` folds, and lemmas
  on how they respond to the handlers.
- `rest_timer.dfy` (`RestTimer`): the rest interval's state updater, and the full 60-second
  countdown.
- `catalog.dfy` (`Catalog`): grouping the catalog file by complex id.
- `summaries.dfy` (`Summaries`): building the summary's name-keyed results, and the
  newest-first history view.

Inputs that come from outside the component become parameters:
- the parsed catalog file, or its absence on failure (`LoadCatalog`);
- the history kept in browser storage (the constructor);
- the date string and whether the server accepted the summary (`SaveTrainingSummary`);
- each one-second timer callback (`Tick`).

Some behaviours of the code may surprise a reader. The model keeps them as written:
- Selecting a complex replaces only the selection. It keeps the recorded results and the
  exercise index. After switching to a shorter complex, the index can point past its end, and
  no exercise panel is shown (`OnExercise` is false).
- A summary lists every exercise of the complex that has an entry, even one whose sets were
  all deleted.
- Deleting at a position outside the list changes nothing but creates the exercise's entry.
  No error is reported.
- Validation rejects only blank fields. Zero and negative numbers are stored.
- Ratings are stored as given. Only the sliders' own bounds (1 to 10) limit them.
- The saved complex name comes from a truthiness test on the id found for the selection, so a
  complex filed under the empty id is saved as "Комплекс не найден".

Some members define quantities and have no row of their own: `Metrics.SetsAt`,
`Metrics.RecordedBelow` and `Metrics.TargetSum` (the per-position folds behind `totalSets` and
`expectedSets`), `RestTimer.Started`, `Summaries.VisitExercise` (one pass of the summary loop),
`Session.EditsExercise` and `Session.TrainingSession.OnExercise` (whether the exercise panel is
shown, TrainingApp.tsx:275). The lemmas and methods in the table state their properties.
`Session.EditThenAppend` is a client walkthrough: it logs, edits, deletes and rejects sets
using only the handlers' contracts.

## Model

| member | source | states |
|---|---|---|
| `Types.EntryAt` | TrainingApp.tsx:81 | an exercise's recorded entry when it has one, otherwise an entry with no sets and an empty comment |
| `SetLists.DropAt` | TrainingApp.tsx:86 | filtering out position `i` shifts every later set down by one and shortens the list by one; a position outside the list leaves it as it was |
| `SetLists.PutAt` | TrainingApp.tsx:113-117 | assigning the edited set at `j` puts the new record at `j`, keeps every other record, and keeps the length when `j` is inside the list (at the length it appends) |
| `RestTimer.NextRest` | TrainingApp.tsx:146-152 | the interval's updater maps 1 to no countdown and any other n to n − 1; an absent value counts as 1 and gives 0 |
| `RestTimer.Tick` | TrainingApp.tsx:145-153 | a stopped interval fires nothing; a running one applies the updater and stays scheduled unless it moved 1 to no countdown |
| `RestTimer.After` | TrainingApp.tsx:145-153 | an interval that has cleared itself is never scheduled again, however many seconds pass |
| `RestTimer.StoppedStaysStopped` | TrainingApp.tsx:147-149 | once the interval has cleared itself, further seconds change nothing |
| `RestTimer.CountsDownFrom` | TrainingApp.tsx:145-153 | from n seconds the countdown shows n − k after k < n ticks, and after n ticks it is gone and its interval stopped |
| `RestTimer.RestPeriod` | TrainingApp.tsx:139-155 | a saved set's rest shows 60 − k after k < 60 ticks and nothing, with the interval stopped, from the 60th tick on |
| `Metrics.ExpectedSets` | TrainingApp.tsx:164 | the expected set count is at least 1: the target sum when positive, else 1 (also with no complex selected) |
| `Metrics.Percent` | TrainingApp.tsx:166 | progress lies in [0, 100], equals 100 exactly when the recorded sets reach the expected ones, and below that is 100 · total / expected |
| `Metrics.ProgressOf` | TrainingApp.tsx:159-166 | the session's progress lies in [0, 100], is 0 with nothing selected, and is 100 exactly when the recorded sets reach the expected ones |
| `Metrics.TotalSets` | TrainingApp.tsx:159-162 | with nothing selected the total is 0 |
| `Metrics.PercentMonotone` | TrainingApp.tsx:166 | for fixed targets, more recorded sets never lower the progress |
| `Metrics.RecordedAfterUpdate` | TrainingApp.tsx:159-162 | rewriting exercise k's entry changes the running set count below n only when k < n, and then by the change in k's set count |
| `Metrics.TotalAfterUpdate` | TrainingApp.tsx:159-162 | `totalSets` ignores entries at positions outside the selected complex; inside it, the total moves by the change in that exercise's set count |
| `Metrics.AppendCountsOne` | TrainingApp.tsx:122-134 | appending a set to an exercise of the complex adds exactly one to the total and does not lower the progress |
| `Metrics.DeleteCountsOne` | TrainingApp.tsx:79-90 | deleting an existing set of an exercise of the complex takes exactly one from the total |
| `Metrics.EditKeepsCount` | TrainingApp.tsx:111-121 | overwriting a set under edit leaves the total unchanged |
| `Metrics.ThreeOfFiveIsSixty` | TrainingApp.tsx:159-166 | targets 3 and 2 with three sets logged on the first exercise give total 3, expected 5 and progress 60 |
| `Metrics.NoTargetsDividesByOne` | TrainingApp.tsx:164-166 | a complex declaring no target sets divides by 1, and shows progress 0 when nothing is logged |
| `Metrics.ZeroTargets` | TrainingApp.tsx:164 | the target reduce is 0 when every exercise declares 0 sets |
| `Metrics.EmptyResultsRecordNothing` | TrainingApp.tsx:159-162 | with no results recorded, the set count is 0 |
| `Catalog.GroupCatalog` | TrainingApp.tsx:58-64 | every id of the catalog file becomes a key of both lookups and no other key does; each key holds the exercises and display name of the last entry with that id |
| `Summaries.BuildNamedResults` | TrainingApp.tsx:177-188 | the summary has a key for the name of every exercise of the complex with an entry, even one without sets, and no other key; each key holds that exercise's sets in order, a later same-named exercise winning; comments are dropped |
| `Summaries.NamedResultsUnique` | TrainingApp.tsx:177-188 | the description of the summary's results determines the map completely |
| `Summaries.OnlyRecordedExercisesListed` | TrainingApp.tsx:178-187 | with sets recorded on the first of two exercises only, the summary lists just that exercise, with its sets |
| `Summaries.NewestFirst` | TrainingApp.tsx:454 | the history tab shows all summaries, the most recent first: position i shows summary n − 1 − i |
| `Summaries.NewestFirstAfterSave` | TrainingApp.tsx:454 | a summary just appended heads the history tab, and the earlier ones follow in their previous order |
| `Session.ComplexName` | TrainingApp.tsx:174-175 | the summary records the catalog's display name for the selection's id, and the not-found name when the id is empty or absent from the catalog |
| `Session.TrainingSession.constructor` | TrainingApp.tsx:12-30 | the initial state: nothing selected, index 0, no results, no edit, no countdown, both ratings 5, empty comment, not finished, history as stored |
| `Session.TrainingSession.LoadCatalog` | TrainingApp.tsx:51-77 | on failure only the error is set; on success the two lookups are the grouped catalog and the first entry's complex is selected (none for an empty file) |
| `Session.TrainingSession.SelectComplex` | TrainingApp.tsx:267 | only the selection changes: to the chosen complex, or to none for an id outside the catalog |
| `Session.TrainingSession.DeleteSet` | TrainingApp.tsx:79-90 | the exercise's sets become the filtered list and its comment is kept; the exercise has an entry afterwards; every other entry is unchanged |
| `Session.TrainingSession.BeginEdit` | TrainingApp.tsx:92-94 | the edit target becomes the given exercise and set; nothing else changes |
| `Session.TrainingSession.CancelEdit` | TrainingApp.tsx:364 | edit mode ends; no set changes |
| `Session.TrainingSession.SaveSet` | TrainingApp.tsx:96-157 | a blank field sets the error and changes nothing else; otherwise the set is appended, or overwrites the edited set when the edit is for this exercise, other entries and the comment are kept, edit mode ends (whichever exercise it was for), the error clears, and a fresh 60-second countdown replaces any running one |
| `Session.TrainingSession.Tick` | TrainingApp.tsx:145-153 | one second applies the countdown step to the remaining time and stops the interval after it reached the end |
| `Session.TrainingSession.SetComment` | TrainingApp.tsx:380-387 | only the current exercise's comment changes; its sets and every other entry are kept |
| `Session.TrainingSession.Jump` | TrainingApp.tsx:288 | the index becomes the chosen tab, inside the complex |
| `Session.TrainingSession.Back` | TrainingApp.tsx:392 | the index becomes max(0, index − 1) and stays inside the complex |
| `Session.TrainingSession.Next` | TrainingApp.tsx:396-401 | the index advances while a next exercise exists; on the last one the session is finished instead and the index stays |
| `Session.TrainingSession.FinishTraining` | TrainingApp.tsx:168-171 | the session becomes finished exactly when a complex is selected |
| `Session.TrainingSession.SetTrainingRating` | TrainingApp.tsx:420 | the training rating is stored as given, without a range check |
| `Session.TrainingSession.SetConditionRating` | TrainingApp.tsx:433 | the condition rating is stored as given, without a range check |
| `Session.TrainingSession.SetTrainingComment` | TrainingApp.tsx:443 | the session comment is stored as given |
| `Session.TrainingSession.SaveTrainingSummary` | TrainingApp.tsx:173-233 | the summary carries the date, the complex's display name (the not-found name for an empty or unknown id), the name-keyed results, both ratings and the comment; the history gains exactly this summary whether or not the server accepted it, which only sets the status; results, selection, index, ratings, comment and the finished flag return to their start values |

## Left out

- Rendering, styling, markdown and the training/history tab switch: presentation only.
- The browser-storage writes of results and history: storage I/O. The initial stored history is the constructor's parameter.
- The requests that load the history and the catalog, and the request that posts a summary: network I/O. The catalog arrives as an already parsed parameter, and the post's outcome is a boolean.
- The four-second reset of the save status message: a wall-clock timeout.
- Formatting the date in the Russian locale: the date is an input string.
- Finding the complex name by object identity: the selection carries its catalog id instead, and the name is looked up by that id.
- The display fields of an exercise (target reps, type, recommended weight, description, tips): they take part in no logic.
- Object key order: after loading, the catalog's first id is taken as the selection. This matches JavaScript's key order unless the ids look like array indices, which JavaScript enumerates in numeric order first.
- Session.TrainingSession.SaveSet: requires that an edit index for the exercise on screen is at most the length of its set list. A larger index would leave holes in a JavaScript array, which a sequence cannot represent.
- Non-numeric form text and the resulting NaN: the form fields are modelled as blank or an integer. Number inputs with the default step accept only integers.
- The exception raised when the summary is saved with no complex selected (reading the selection's exercises): `SaveTrainingSummary` requires a selection. The save button is only shown after `FinishTraining` succeeded, and the picker is hidden from then on.
- Session.TrainingSession.SaveTrainingSummary: the save is one atomic step. The code appends the summary and resets the session only after the POST returns (TrainingApp.tsx:199-232). In that window a second click appends a second summary built from the same state, and rating or comment changes made meanwhile are discarded by the reset. The wait is asynchronous I/O, which the model does not interleave.
- Metrics.Percent: progress is computed in exact real arithmetic, not IEEE doubles, so rounding of the division is not modelled. The catalog's target set counts are taken as natural numbers: a missing count is 0, and negative or fractional targets are not modelled.
- The server's save route and its CSV writer: file I/O around an append, with no logic of its own beyond rejecting a request that carries no summary.
