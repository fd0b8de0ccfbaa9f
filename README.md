# Task manager store, modelled in Dafny

The application is a single-page task list. Its only logic sits in the
`TaskManager` component. The component holds an ordered list of task records,
each with an id, text, category, priority, due date and creation time. It also
holds a form for new tasks, an edit buffer and a dialog-open flag. Four
handlers change this state:

- adding a task: the text is trimmed, blank text is rejected, a record is
  appended and the text and due-date inputs are cleared;
- deleting every task with a given id;
- opening the editor on a task: the buffer gets the task's fields and the
  dialog opens;
- saving the edit: blank text is rejected; otherwise every task whose id
  matches the buffer's is replaced in place, keeping its id and creation
  time, and the dialog closes and the buffer is emptied.

Every change to the list is written to browser storage.

The project has two modules:

- `TaskModel` (`TaskModel.dfy`) holds the values and pure computations:
  - the `Task` and `EditBuffer` records;
  - `Trim`, which follows ECMAScript `String.prototype.trim`, with
    `IsWhitespace` listing the WhiteSpace and LineTerminator code points;
  - `NewTask`, the record an add appends;
  - `WithoutId`, the filter behind delete;
  - `EditMatching`, the map-and-replace behind save;
  - the lemmas that characterise these, and the list invariants (unique ids,
    trimmed non-empty texts) that each step preserves.
- `TaskManagerComponent` (`TaskManager.dfy`) holds the class `TaskManager`.
  Its mutable fields are the component's state variables. The `stored` field
  is the copy in browser storage. There is one method per handler and one per
  form field setter. `Valid()` says that the stored copy equals the list, and
  every method keeps it. `Session` is a client that creates, edits and
  deletes a task on a fresh component. It uses only the method contracts, and
  shows that the list and the stored copy end up empty.

Clock values are method parameters: `now` for `Date.now()` and `nowIso` for
`new Date().toISOString()`. The constructor takes what storage holds, already
decoded, as an `Option`.

The model follows the code as written, including these points:

- Ids are not guaranteed unique. Two adds in the same millisecond get the same
  id, and then a delete or an edit hits both tasks. The lemmas about unique
  ids take "the new id is not already present" as a hypothesis.
- Category and priority are free-form strings. The store never checks them
  against the choices the form offers.
- Saving replaces every task whose id matches, not just one.
- The buffer id starts as `null` (`None` here). A `null` id matches no task.
- Opening the editor spreads the whole task into the buffer, so the buffer
  also carries the task's `createdAt` (`EditBuffer.createdAt`). Saving never
  reads it.
- The list is also written to storage once after mounting. Closing the
  dialog with Cancel keeps the buffer.
- The Enter key in the new-task field (src/components/TaskManager.jsx:119) calls the same handler as
  the Add button (`AddTask`). The dialog's `onClose` (line 290) does the same
  as Cancel (`CloseDialog`).

## Model

| member | source | states |
|---|---|---|
| `TaskModel.TrimStartSpec` | src/components/TaskManager.jsx:44 | the start of trimming removes exactly the leading whitespace: the result is the suffix of the input after a run of whitespace, and it does not itself start with whitespace |
| `TaskModel.TrimEndSpec` | src/components/TaskManager.jsx:44 | the end of trimming removes exactly the trailing whitespace: the result is the prefix of the input before a run of whitespace, and it does not itself end with whitespace |
| `TaskModel.Trim` | src/components/TaskManager.jsx:44 | `trim()` removes the ECMAScript WhiteSpace and LineTerminator code points from both ends: the result is no longer than the input and has no whitespace at either end (TrimSpec and TrimUnique characterise it completely) |
| `TaskModel.TrimSpec` | src/components/TaskManager.jsx:44-47 | `trim()` is empty exactly when the input is blank (so the `if` guard rejects exactly blank input); the result has no whitespace at either end and is the slice of the input between the whole leading whitespace run and a whitespace suffix |
| `TaskModel.TrimUnique` | src/components/TaskManager.jsx:47 | trimming any trimmed core surrounded by whitespace gives back exactly that core |
| `TaskModel.TrimIdempotent` | src/components/TaskManager.jsx:80 | trimming already-trimmed text changes nothing, so stored texts are stable under another trim |
| `TaskModel.TrimOfTrimmed` | src/components/TaskManager.jsx:47 | text with no whitespace at either end is stored as typed |
| `TaskModel.NewTask` | src/components/TaskManager.jsx:45-52 | the appended record has id `now` and createdAt `nowIso`; its text is the input's `trim()` (no whitespace at either end, and empty exactly when the input is blank); its category, priority and due date are the selected ones |
| `TaskModel.WithoutId` | src/components/TaskManager.jsx:60 | `tasks.filter(task => task.id !== taskId)` never lengthens the list (WithoutIdMembers, WithoutIdLength and WithoutIdPosition characterise it completely) |
| `TaskModel.WithoutIdMembers` | src/components/TaskManager.jsx:60 | a task is in the filtered list if and only if it is in the old list and its id differs from the deleted id |
| `TaskModel.WithoutIdLength` | src/components/TaskManager.jsx:60 | deleting shortens the list by exactly the number of tasks that carry the id |
| `TaskModel.WithoutIdConcat` | src/components/TaskManager.jsx:60 | filtering a concatenation filters each part and concatenates the results, in order |
| `TaskModel.WithoutIdPosition` | src/components/TaskManager.jsx:60 | a task kept from position `i` lands at position `i` minus the number of deleted tasks before it (an independent count) |
| `TaskModel.WithoutIdKeepsOrder` | src/components/TaskManager.jsx:60 | two kept tasks keep their relative order after a delete, each at its old position minus the deleted tasks before it |
| `TaskModel.WithoutIdAbsent` | src/components/TaskManager.jsx:60 | deleting an id that no task carries leaves the list unchanged |
| `TaskModel.WithoutIdIdempotent` | src/components/TaskManager.jsx:60 | deleting the same id twice gives the same list as deleting it once |
| `TaskModel.EditMatching` | src/components/TaskManager.jsx:77-85 | the mapped list has the same length as the old one |
| `TaskModel.EditMatchingAt` | src/components/TaskManager.jsx:77-85 | at each position, the task keeps its id and createdAt; if its id equals the buffer id it takes the new text, category, priority and due date, and otherwise it is unchanged |
| `TaskModel.EditMatchingSpec` | src/components/TaskManager.jsx:76-86 | the per-position facts of EditMatchingAt for all positions at once, together with the preserved length |
| `TaskModel.EditMatchingAbsent` | src/components/TaskManager.jsx:77-85 | saving an edit whose id matches no task (including a null id) leaves the list unchanged |
| `TaskModel.EditMatchingIdempotent` | src/components/TaskManager.jsx:77-85 | applying the same replacement twice gives the same list as applying it once |
| `TaskModel.AppendKeepsUniqueIds` | src/components/TaskManager.jsx:45-53 | appending a record whose id no task carries keeps ids pairwise distinct |
| `TaskModel.WithoutIdKeepsUniqueIds` | src/components/TaskManager.jsx:60 | deleting keeps ids pairwise distinct |
| `TaskModel.EditMatchingKeepsUniqueIds` | src/components/TaskManager.jsx:77-85 | saving an edit keeps ids pairwise distinct, because ids are never reassigned |
| `TaskModel.AppendKeepsTextsTrimmed` | src/components/TaskManager.jsx:44-53 | adding non-blank input keeps every stored text non-empty and trimmed |
| `TaskModel.WithoutIdKeepsTextsTrimmed` | src/components/TaskManager.jsx:60 | deleting keeps every stored text non-empty and trimmed |
| `TaskModel.EditMatchingKeepsTextsTrimmed` | src/components/TaskManager.jsx:75-85 | saving non-blank, trimmed text keeps every stored text non-empty and trimmed |
| `TaskManagerComponent.TaskManager.constructor` | src/components/TaskManager.jsx:28-41 | the list starts from the stored tasks, or empty when nothing is stored; the form starts with empty text and due date, "work" and "medium"; the buffer is `{id: null, text: '', category: '', priority: '', dueDate: ''}`; the dialog is closed; the stored copy equals the list |
| `TaskManagerComponent.TaskManager.AddTask` | src/components/TaskManager.jsx:43-57 | blank input leaves the list, the text and the due date unchanged; otherwise the list becomes the old list plus one record at the end, with id `now`, the trimmed text, the current category, priority and due date, and createdAt `nowIso`; the text and due-date inputs are cleared; category, priority, buffer and dialog are kept; the stored copy equals the list; trimmed texts are preserved, and unique ids are preserved when `now` is new |
| `TaskManagerComponent.TaskManager.DeleteTask` | src/components/TaskManager.jsx:59-61 | the list becomes the filtered old list, shorter by the number of tasks with the id, and no task with that id remains; nothing else changes; the stored copy equals the list; both list invariants are preserved |
| `TaskManagerComponent.TaskManager.EditClick` | src/components/TaskManager.jsx:63-72 | the buffer gets the task's id, text, category, priority, due date and createdAt; the dialog is open; the list and the form are untouched |
| `TaskManagerComponent.TaskManager.EditSave` | src/components/TaskManager.jsx:74-90 | blank buffer text leaves the list, the buffer and the dialog as they were; otherwise the list becomes EditMatching of the old list with the trimmed text and the buffer's id, category, priority and due date, the dialog closes and the buffer is reset; the form is untouched; the stored copy equals the list; both list invariants are preserved |
| `TaskManagerComponent.TaskManager.CloseDialog` | src/components/TaskManager.jsx:337 | Cancel closes the dialog and keeps the buffer and the list |
| `TaskManagerComponent.TaskManager.SetNewTask` | src/components/TaskManager.jsx:118 | typing sets the new-task text and changes nothing else |
| `TaskManagerComponent.TaskManager.SetNewCategory` | src/components/TaskManager.jsx:155 | choosing sets the new task's category and changes nothing else |
| `TaskManagerComponent.TaskManager.SetNewPriority` | src/components/TaskManager.jsx:168 | choosing sets the new task's priority and changes nothing else |
| `TaskManagerComponent.TaskManager.SetNewDueDate` | src/components/TaskManager.jsx:180 | choosing sets the new task's due date and changes nothing else |
| `TaskManagerComponent.TaskManager.SetEditText` | src/components/TaskManager.jsx:299 | typing replaces only the buffer's text |
| `TaskManagerComponent.TaskManager.SetEditCategory` | src/components/TaskManager.jsx:306 | choosing replaces only the buffer's category |
| `TaskManagerComponent.TaskManager.SetEditPriority` | src/components/TaskManager.jsx:319 | choosing replaces only the buffer's priority |
| `TaskManagerComponent.TaskManager.SetEditDueDate` | src/components/TaskManager.jsx:330 | choosing replaces only the buffer's due date |

## Left out

- Rendering, styling, animation and the priority chip colour in
  src/components/TaskManager.jsx, and all of src/App.jsx (theme, particle
  background). None of it changes the store.
- Browser storage and JSON. Storage is the `stored` field, which every list
  change assigns. The constructor receives the decoded stored list, or `None`
  when the key is missing or empty. Serialisation, its round trip, and the
  uncaught failure on malformed stored data are not modelled.
- The clock. `Date.now()` and `new Date().toISOString()` are the parameters
  `now` and `nowIso` of `AddTask`. Nothing relates the two values, and ids are
  not assumed to be fresh.
- React scheduling. Each handler is one atomic step, with the storage write
  folded into it. The batched, asynchronous state updates and the timing of
  the effect are not modelled. A delete of an absent id still rewrites
  storage with an equal list, and the model assigns the same value.
- String encoding. JavaScript strings are UTF-16 code units, and Dafny `char`
  is a Unicode scalar value, so lone surrogates cannot be represented. Every
  character that `trim` removes lies in the Basic Multilingual Plane, so
  trimming agrees on every string the model can represent.
