# Todo list screen: a Dafny model

The BasicsCodelab app is a one-screen todo list written with Jetpack Compose.
Beneath its UI code is a small state machine. The screen holds two state
variables: `tasks`, a list of `TodoTask(id, title, description, isCompleted)`
records, and `showDialog`, which shows the add-task dialog. The callbacks
reassign them:

- the checkbox toggles `isCompleted` on the task with a given id (a `map` over the list);
- the delete button removes the task(s) with a given id (a `filter`);
- the dialog's Add button appends a new, not-completed task. The title and
  description are trimmed first, and the button does nothing while the title
  is blank;
- the floating action button opens the dialog, and Cancel or an outside tap closes it.

The project has three modules:

- `Text` (`text.dfy`) defines Kotlin's `isWhitespace` (as Android's
  runtime answers it), `isBlank`, `isNotBlank` and `trim`, written out over
  `seq<char>`.
- `Todo` (`todo.dfy`) holds the `TodoTask` datatype (the data class at
  `MainActivity.kt` lines 26-31, with the id supplied by the caller instead of
  generated) and the list transitions,
  written as pure functions. It also holds the lemmas about them: toggle is an
  involution and changes only the matching task, delete keeps the others in
  order, add appends exactly one task, and every stored title is neither blank
  nor padded.
- `TodoScreen` (`screen.dfy`) is a class `TodoApp` with the two state
  variables as fields. Its methods are the screen's callbacks, and each one is
  specified by the `Todo` function it applies. The object invariant `Valid()`
  says that ids are unique and that every stored task is well formed.

Two requirements in the model come from how the app works:

- The app gives each task a random `UUID`. Here the id is supplied by the
  caller, and `ConfirmAddTask` requires it to differ from the ids already in
  the list. This is the uniqueness the random UUIDs provide in practice.
- The dialog's buttons exist only while `showDialog` is true. So
  `ConfirmAddTask` and `DismissDialog` require `showDialog`.

## Model

| member | source | states |
|---|---|---|
| `Text.IsNotBlank` | BasicsCodelab/app/src/main/java/com/example/basicscodelab/MainActivity.kt:280-285 | the confirm guard holds exactly when some character of the title is not whitespace, i.e. exactly when the trimmed title is non-empty |
| `Text.TrimStart` | BasicsCodelab/app/src/main/java/com/example/basicscodelab/MainActivity.kt:282 | drops exactly a blank prefix; what is left is a suffix of the input and does not start with whitespace |
| `Text.TrimEnd` | BasicsCodelab/app/src/main/java/com/example/basicscodelab/MainActivity.kt:282 | drops exactly a blank suffix; what is left is a prefix of the input and does not end with whitespace |
| `Text.Trim` | BasicsCodelab/app/src/main/java/com/example/basicscodelab/MainActivity.kt:282 | the trimmed string is no longer than the input and has no whitespace at either end; it is empty exactly when the input is blank |
| `Text.TrimRemovesOnlyEnds` | BasicsCodelab/app/src/main/java/com/example/basicscodelab/MainActivity.kt:282 | the input is a blank prefix, then the trimmed string, then a blank suffix: trimming removes nothing else |
| `Text.TrimOfTrimmed` | BasicsCodelab/app/src/main/java/com/example/basicscodelab/MainActivity.kt:282 | a string with no whitespace at either end is returned unchanged by trim |
| `Text.TrimIdempotent` | BasicsCodelab/app/src/main/java/com/example/basicscodelab/MainActivity.kt:282 | trimming twice gives the same as trimming once |
| `Todo.CountIdZero` | BasicsCodelab/app/src/main/java/com/example/basicscodelab/MainActivity.kt:87 | no task carries an id exactly when the id is not among the list's ids |
| `Todo.CountUnique` | BasicsCodelab/app/src/main/java/com/example/basicscodelab/MainActivity.kt:26-31 | when ids are unique, at most one task carries any given id |
| `Todo.ToggleIfMatch` | BasicsCodelab/app/src/main/java/com/example/basicscodelab/MainActivity.kt:82-83 | the `map` lambda keeps id, title and description, and flips `isCompleted` exactly when the id matches |
| `Todo.Toggle` | BasicsCodelab/app/src/main/java/com/example/basicscodelab/MainActivity.kt:81-84 | toggling keeps the length of the list |
| `Todo.ToggleAt` | BasicsCodelab/app/src/main/java/com/example/basicscodelab/MainActivity.kt:81-84 | position i of the result is the task at position i passed through the lambda (order is kept) |
| `Todo.ToggleOnlyMatching` | BasicsCodelab/app/src/main/java/com/example/basicscodelab/MainActivity.kt:81-84 | length unchanged; each task with another id is returned identical in the same position; each matching task keeps id, title and description and has `isCompleted` negated |
| `Todo.ToggleInvolution` | BasicsCodelab/app/src/main/java/com/example/basicscodelab/MainActivity.kt:82 | toggling the same id twice gives back the original list |
| `Todo.ToggleDistributes` | BasicsCodelab/app/src/main/java/com/example/basicscodelab/MainActivity.kt:81-84 | toggling a concatenation is the concatenation of the toggled parts (the list is never reordered) |
| `Todo.ToggleCommutes` | BasicsCodelab/app/src/main/java/com/example/basicscodelab/MainActivity.kt:81-84 | toggling two ids gives the same list in either order |
| `Todo.ToggleKeepsInvariant` | BasicsCodelab/app/src/main/java/com/example/basicscodelab/MainActivity.kt:81-84 | toggling keeps the set of ids, their uniqueness, and the well-formedness of every stored task |
| `Todo.Delete` | BasicsCodelab/app/src/main/java/com/example/basicscodelab/MainActivity.kt:87 | the list shrinks by exactly the number of tasks that carried the id |
| `Todo.DeleteOnlyMatching` | BasicsCodelab/app/src/main/java/com/example/basicscodelab/MainActivity.kt:87 | no task with the id remains; every remaining task was in the input; every task with another id remains |
| `Todo.DeleteDistributes` | BasicsCodelab/app/src/main/java/com/example/basicscodelab/MainActivity.kt:87 | deleting from a concatenation is the concatenation of the deletions, so the remaining tasks keep their relative order |
| `Todo.DeleteAbsent` | BasicsCodelab/app/src/main/java/com/example/basicscodelab/MainActivity.kt:87 | deleting an id no task carries leaves the list unchanged |
| `Todo.DeleteRemovesOne` | BasicsCodelab/app/src/main/java/com/example/basicscodelab/MainActivity.kt:87 | when ids are unique, deleting a present id removes exactly one task |
| `Todo.DeleteKeepsInvariant` | BasicsCodelab/app/src/main/java/com/example/basicscodelab/MainActivity.kt:87 | after a delete the ids are the old ids minus the deleted one; unique ids and well-formed tasks are kept |
| `Todo.DeleteAfterToggle` | BasicsCodelab/app/src/main/java/com/example/basicscodelab/MainActivity.kt:80-88 | deleting a task after toggling it gives the same list as deleting it straight away |
| `Todo.Add` | BasicsCodelab/app/src/main/java/com/example/basicscodelab/MainActivity.kt:97-100 | appends exactly one task at the end: the old list is an unchanged prefix, the length grows by one, and the new task has the given id, title and description and is not completed |
| `Todo.AddThenDelete` | BasicsCodelab/app/src/main/java/com/example/basicscodelab/MainActivity.kt:86-100 | deleting the task just added under a fresh id restores the previous list |
| `Todo.AppendKeepsInvariant` | BasicsCodelab/app/src/main/java/com/example/basicscodelab/MainActivity.kt:97-100 | appending a well-formed task with a fresh id keeps ids unique and tasks well formed, and adds exactly that id |
| `Todo.ConfirmAdd` | BasicsCodelab/app/src/main/java/com/example/basicscodelab/MainActivity.kt:280-285 | with a blank title the list is unchanged. Otherwise exactly one task is appended, with the trimmed title and the trimmed description, not completed. Its title is non-blank and unpadded |
| `Todo.ConfirmAddKeepsInvariant` | BasicsCodelab/app/src/main/java/com/example/basicscodelab/MainActivity.kt:280-285 | confirming with a fresh id keeps ids unique and keeps every stored title non-blank and trimmed; the new id joins the ids only when the title is not blank |
| `TodoScreen.TodoApp.constructor` | BasicsCodelab/app/src/main/java/com/example/basicscodelab/MainActivity.kt:47-48 | the screen starts with no tasks and the dialog hidden, satisfying the invariant |
| `TodoScreen.TodoApp.OpenDialog` | BasicsCodelab/app/src/main/java/com/example/basicscodelab/MainActivity.kt:63 | the floating action button sets `showDialog` and touches nothing else |
| `TodoScreen.TodoApp.DismissDialog` | BasicsCodelab/app/src/main/java/com/example/basicscodelab/MainActivity.kt:95 | dismissing clears `showDialog` and leaves the list alone |
| `TodoScreen.TodoApp.ToggleComplete` | BasicsCodelab/app/src/main/java/com/example/basicscodelab/MainActivity.kt:80-85 | the list becomes its toggle, `showDialog` is unchanged, ids are unchanged, and the invariant is kept |
| `TodoScreen.TodoApp.DeleteTask` | BasicsCodelab/app/src/main/java/com/example/basicscodelab/MainActivity.kt:86-88 | the list becomes its filter. A present id removes one task and an absent id changes nothing. The invariant is kept |
| `TodoScreen.TodoApp.ConfirmAddTask` | BasicsCodelab/app/src/main/java/com/example/basicscodelab/MainActivity.kt:96-102 | the list becomes `ConfirmAdd` of the old list: a blank title changes nothing. The dialog stays open exactly when the title is blank. The invariant is kept |

## Left out

- Compose rendering (`Scaffold`, `TopAppBar`, `EmptyState`, `TaskList`, `TaskItem`, icons, colours, typography), animation spring parameters and alpha values: presentation with no logic to state.
- `MainActivity.onCreate` and the `rememberSaveable` save/restore of state: platform plumbing. The constructor models only the initial values.
- `UUID.randomUUID()`: randomness is outside the model. The id is a parameter, and its freshness is a precondition of `ConfirmAddTask`.
- The per-item `expanded` flag: purely visual.
- The dialog's own text-field state (`title`, `description` and their `onValueChange` edits): the typed strings are parameters of the confirm operation. The model does not capture that they reset when the dialog is composed again.
- The `enabled = title.isNotBlank()` flag of the Add button is not modelled separately. It uses the same guard as the button's `onClick`, and that guard is modelled.
- `TodoScreen.TodoApp.ToggleComplete` and `TodoScreen.TodoApp.DeleteTask` accept any id at any time. In the app they can be invoked only from a displayed task, with that task's id, when the list is non-empty. The model is more general here.
- `Text.IsWhitespace` is a fixed table: Android's `Character.isWhitespace` or `isSpaceChar`, with U+180E counted as whitespace (as Android does, and as every runtime built on Unicode 6.2 or older does). A desktop JDK 9 or later drops U+180E, so there a title made only of U+180E is not blank. The model follows Android and does not capture that difference. Future Unicode versions that add or move space separators are not captured either.
- `Text.IsWhitespace` works on Unicode scalar values, and Kotlin on UTF-16 code units. Every whitespace character lies in the Basic Multilingual Plane, so the two agree.
