# Task Manager Pro: the task store

Task Manager Pro is a single-window Tkinter program. Its state is one dictionary,
`tasks`, from a category name to an ordered list of `(text, done)` pairs. Five
buttons act on that dictionary:

- Add Task checks the typed text and appends it, not done, to the selected category.
- Toggle Task flips the done flag of the selected row.
- Delete Task removes the selected row.
- View Details shows the selected row's text and status.
- Show Tasks fills the list box with one row per task.

This project models that dictionary and the callbacks that change or read it. It
also models the two pure pieces beside it: the input rule of Add Task and the text of
a list row and of the details popup.

- `validation.dfy`, module `Validation`: the input rule. `IsWhitespace` is the character set
  of Python's `str.isspace()`. CPython uses that same set for `\s` in a `str` pattern and
  for `str.strip()`. `Strip` is built from `TrimStart` and `TrimEnd`. `MatchesTaskPattern`
  is `^[A-Za-z\s]+$`, and `IsValidTask` is the negation of the rejection test.
- `tasks.dfy`, module `Tasks`: the `Task` record and the selection type `Option`. It also holds
  the list edits `Appended`, `FlippedAt` and `RemovedAt`, the store invariant
  `StoreValid` (every stored text passed the input rule), and the texts `Row`,
  `DetailsText` and `DetailsMessage`.
- `store.dfy`, module `Store`: the seed data and the class `TaskStore`. The class has one
  field, `tasks: map<string, seq<Task>>`. Its methods are `Add`, `Toggle`, `Delete`,
  `Details` and the row loop `ShowTasks`.

Each method takes the category as a parameter, because the combo box holds it when a
button is pressed. The list-box selection `curselection()` is an `Option<nat>`, where
`None` means no row is selected. The state-changing methods state the whole new map in
terms of the old one. Each one also ensures that the store invariant `Valid()` is kept.

Three points about the code:

- Categories are not a closed set. The combo box is editable, and `setdefault` creates
  any category that Add Task is given. So the map keys are arbitrary strings.
- An out-of-range index or a missing category is not reported as an error value. The
  code raises `IndexError` or `KeyError`; Tk's callback handler prints the traceback on standard error and the program carries on with the dictionary unchanged. The
  model makes "category present and index in range" a precondition of Toggle, Delete
  and Details whenever a row is selected.
- "No row selected" is its own branch. Toggle and Delete do nothing in that case.
  Details returns `None`, for which the popup text is "Please select a task".

## Model

| member | source | states |
|---|---|---|
| `Validation.IsWhitespace` | BenMnaSalemFinalProject.py:32 | definition: the code points for which `str.isspace()` holds, the set that both `\s` and `strip()` use |
| `Validation.MatchesTaskPattern` | BenMnaSalemFinalProject.py:32 | definition: `re.match("^[A-Za-z\s]+$", task)` succeeds, that is, the text is non-empty and every character is an ASCII letter or whitespace |
| `Validation.IsValidTask` | BenMnaSalemFinalProject.py:32 | definition: the negation of the rejection test `task.strip() == '' or not re.match(...)` |
| `Validation.TrimStart` | BenMnaSalemFinalProject.py:32 | the result is a suffix of the text; everything dropped is whitespace; the result is empty or starts with a non-whitespace character |
| `Validation.TrimEnd` | BenMnaSalemFinalProject.py:32 | the result is a prefix of the text; everything dropped is whitespace; the result is empty or ends with a non-whitespace character |
| `Validation.Strip` | BenMnaSalemFinalProject.py:32 | `strip()` returns `''` exactly when every character is whitespace; otherwise the result starts and ends with a non-whitespace character |
| `Validation.StripInfix` | BenMnaSalemFinalProject.py:32 | `strip()` returns the infix of the text that starts at some offset `i`, and every character before and after that infix is whitespace |
| `Validation.ValidTaskIff` | BenMnaSalemFinalProject.py:32 | a text is accepted if and only if every character is an ASCII letter or whitespace and at least one character is an ASCII letter, so any accepted text holds a letter |
| `Validation.ForeignCharRejected` | BenMnaSalemFinalProject.py:32 | one character that is neither an ASCII letter nor whitespace is enough to reject the text |
| `Validation.RejectedExamples` | BenMnaSalemFinalProject.py:32-40 | `""`, `"  "` and `"Task123!"` are rejected |
| `Validation.LettersAndSpacesAccepted` | BenMnaSalemFinalProject.py:32 | a text of ASCII letters and spaces that starts with a letter is accepted |
| `Tasks.Lookup` | BenMnaSalemFinalProject.py:19 | definition: `tasks.get(category, [])`, the category's list, or the empty list when the category is absent; Add's `setdefault` at line 42 starts from the same list |
| `Tasks.Appended` | BenMnaSalemFinalProject.py:42 | `append((task, False))` makes the list one longer, keeps every earlier entry, and puts the new task, not done, last |
| `Tasks.FlippedAt` | BenMnaSalemFinalProject.py:53-54 | replacing entry i by `(task, not is_done)` keeps the length and the text at i, negates the flag at i, and leaves every other entry as it was |
| `Tasks.RemovedAt` | BenMnaSalemFinalProject.py:65 | `pop(i)` makes the list one shorter; entries before i keep their positions and entries after i move down by one |
| `Tasks.FlipTwice` | BenMnaSalemFinalProject.py:53-54 | toggling the same entry twice restores the original list |
| `Tasks.RemovedAtTakesOne` | BenMnaSalemFinalProject.py:65 | as a multiset, the list after `pop(i)` plus the removed entry is exactly the list before |
| `Tasks.UpdateKeepsValid` | BenMnaSalemFinalProject.py:42 | replacing one category's list by a list of valid texts keeps every stored text valid |
| `Tasks.AppendedKeepsValid` | BenMnaSalemFinalProject.py:32-42 | appending a text that passed the input rule keeps every text of the list valid |
| `Tasks.PairKeepsValid` | BenMnaSalemFinalProject.py:106-110 | two tasks whose texts pass the input rule form a list whose every text is valid, as in each two-task seed category |
| `Tasks.FlippedKeepsValid` | BenMnaSalemFinalProject.py:53-54 | toggling keeps every text of the list valid |
| `Tasks.RemovedKeepsValid` | BenMnaSalemFinalProject.py:65 | deleting keeps every remaining text of the list valid |
| `Tasks.Row` | BenMnaSalemFinalProject.py:20-21 | definition: `f"{task} - {status}"`, with status `"Done"` or `"Not Done"` |
| `Tasks.DetailsText` | BenMnaSalemFinalProject.py:77 | definition: `f"Task: {task}\nStatus: {status}"`, with status `"Done"` or `"Not Done"` |
| `Tasks.DetailsMessage` | BenMnaSalemFinalProject.py:77-95 | definition: the details text of the selected task, or `"Please select a task"` when none is selected |
| `Tasks.RowShape` | BenMnaSalemFinalProject.py:20-21 | a row is the task text followed by `" - Done"` when done and by `" - Not Done"` when not; the row ends in `" - Done"` exactly when the task is done |
| `Tasks.RowInjective` | BenMnaSalemFinalProject.py:20-21 | two tasks with the same row are the same task, so a row shows both text and flag without loss |
| `Tasks.DetailsTextStatus` | BenMnaSalemFinalProject.py:77 | the details text holds the task text after `"Task: "` and ends in `"Not Done"` exactly when the task is not done |
| `Tasks.DetailsTextInjective` | BenMnaSalemFinalProject.py:77 | two tasks with the same details text are the same task |
| `Tasks.DetailsMessageInjective` | BenMnaSalemFinalProject.py:77-96 | the View Details popup text tells apart every selected task, and it tells "no selection" apart from any task |
| `Store.Seed` | BenMnaSalemFinalProject.py:106-110 | definition: the initial dictionary, House with two tasks, School with two and Gym with one, all not done |
| `Store.SeedShape` | BenMnaSalemFinalProject.py:106-110 | the initial store has exactly House, School and Gym, with two, two and one tasks, all not done |
| `Store.CleanTheHouseValid` | BenMnaSalemFinalProject.py:107 | the seed text `"Clean the house"` passes the input rule |
| `Store.DoLaundryValid` | BenMnaSalemFinalProject.py:107 | the seed text `"Do laundry"` passes the input rule |
| `Store.FinishHomeworkValid` | BenMnaSalemFinalProject.py:108 | the seed text `"Finish homework"` passes the input rule |
| `Store.StudyForExamValid` | BenMnaSalemFinalProject.py:108 | the seed text `"Study for exam"` passes the input rule |
| `Store.CurlUpsExerciseValid` | BenMnaSalemFinalProject.py:109 | the seed text `"Curl Ups exercise"` passes the input rule |
| `Store.HouseSeedValid` | BenMnaSalemFinalProject.py:107 | every text of the seeded House list passes the input rule |
| `Store.SchoolSeedValid` | BenMnaSalemFinalProject.py:108 | every text of the seeded School list passes the input rule |
| `Store.GymSeedValid` | BenMnaSalemFinalProject.py:109 | every text of the seeded Gym list passes the input rule |
| `Store.SeedValid` | BenMnaSalemFinalProject.py:106-110 | every seeded text passes the input rule, so the store invariant holds from the start |
| `Store.SeedWalkthrough` | BenMnaSalemFinalProject.py:53-54 | on the seed, toggling House entry 0 gives `[("Clean the house", True), ("Do laundry", False)]`, deleting entry 1 then leaves `[("Clean the house", True)]`, and that task's row is `"Clean the house - Done"` |
| `Store.TaskStore.constructor` | BenMnaSalemFinalProject.py:106-110 | the store starts as the seed and satisfies the invariant |
| `Store.TaskStore.ShowTasks` | BenMnaSalemFinalProject.py:13-21 | one row per task of the category, in list order, with row k being task k's row; a category absent from the map gives no rows |
| `Store.TaskStore.Add` | BenMnaSalemFinalProject.py:24-43 | accepted exactly when the input rule holds; on rejection the whole map is unchanged; on acceptance `(text, False)` is appended to the category's list, created empty if absent; all other categories are unchanged; the invariant is kept |
| `Store.TaskStore.Toggle` | BenMnaSalemFinalProject.py:46-55 | no selection leaves the map unchanged; otherwise the category's list becomes `FlippedAt` of the old list; the key set and all other categories are unchanged; the invariant is kept |
| `Store.TaskStore.Delete` | BenMnaSalemFinalProject.py:58-66 | no selection leaves the map unchanged; otherwise the category's list becomes `RemovedAt` of the old list; the key set and all other categories are unchanged; the invariant is kept |
| `Store.TaskStore.Details` | BenMnaSalemFinalProject.py:81-96 | reads only; returns nothing exactly when no row is selected, and otherwise the entry at the selected position; in a valid store the shown task's text passes the input rule |

## Left out

- Everything Tkinter does is left out: the windows, `Toplevel` popups, labels, fonts, geometry, the image files, `mainloop` and `exitApp` (lines 34-39, 73-78, 91-96, 99-103, 113-180). These are presentation and file I/O.
- The list box is not part of the modelled state. `ShowTasks` returns the rows that `showTasks` inserts. The calls to `showTasks()` after Add, Toggle and Delete (lines 43, 55, 66) are the same loop run again on the new map.
- The category selection `categoryVar` and the row selection `curselection()` are parameters. The model does not track whether the list box still shows the category that the combo box now names. A selected index always addresses the list of the category passed in.
- Exceptions are not modelled. A missing category or an out-of-range index raises `KeyError` or `IndexError`; Tk prints the traceback on standard error and the program carries on. The model excludes these cases by precondition.
- Regex engine details are left out. `re.match` is modelled as a character-class test. Python's `$` may also match before one final newline, but a newline is in `\s`, so this does not change which texts match.
- Letters are only `A-Z` and `a-z`, as the pattern states. Whitespace is the fixed set of code points for which `str.isspace()` holds. Strings are sequences of Unicode scalar values, with no normalisation.
