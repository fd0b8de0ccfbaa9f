/** The TaskManager component's state and the handlers that change it. Each
    handler is one atomic step; the persistence effect that follows every
    change of the list is folded into the step that makes the change. */
module TaskManagerComponent {
  import opened TaskModel

  class TaskManager {
    /** The task list shown to the user. */
    var tasks: seq<Task>
    /** The copy kept in browser storage under the key "tasks". */
    var stored: seq<Task>
    /** The new-task form. */
    var newTask: string
    var newCategory: string
    var newPriority: string
    var newDueDate: string
    /** The edit dialog. */
    var editTask: EditBuffer
    var openDialog: bool

    /** The stored copy mirrors the list. */
    ghost predicate Valid()
      reads this
    {
      stored == tasks
    }

    /** Mounting: the list starts from what storage holds (`saved`, already
        decoded) or empty when nothing is stored; the form starts on
        "work" and "medium"; the edit buffer is empty and the dialog
        closed. The persistence effect runs once after mounting. */
    constructor (saved: Option<seq<Task>>)
      ensures Valid()
      ensures tasks == (if saved.Some? then saved.value else [])
      ensures newTask == "" && newCategory == "work" && newPriority == "medium" && newDueDate == ""
      ensures editTask == EmptyEdit && !openDialog
    {
      tasks := if saved.Some? then saved.value else [];
      newTask, newCategory, newPriority, newDueDate := "", "work", "medium", "";
      editTask := EmptyEdit;
      openDialog := false;
      stored := tasks;
    }

    /** Adding a task. `now` is the millisecond clock and `nowIso` the same
        instant as an ISO 8601 string. Blank input changes nothing;
        otherwise the list gains exactly one record at its end, the text and
        due-date inputs are cleared and the category and priority selections
        stay. */
    method AddTask(now: int, nowIso: string)
      requires Valid()
      modifies this
      ensures Valid()
      ensures IsBlank(old(newTask)) ==>
        tasks == old(tasks) && newTask == old(newTask) && newDueDate == old(newDueDate)
      ensures !IsBlank(old(newTask)) ==>
        && tasks == old(tasks) + [NewTask(old(newTask), old(newCategory), old(newPriority),
                                          old(newDueDate), now, nowIso)]
        && newTask == "" && newDueDate == ""
      ensures newCategory == old(newCategory) && newPriority == old(newPriority)
      ensures editTask == old(editTask) && openDialog == old(openDialog)
      ensures TextsTrimmed(old(tasks)) ==> TextsTrimmed(tasks)
      ensures UniqueIds(old(tasks)) && (forall t :: t in old(tasks) ==> t.id != now) ==>
        UniqueIds(tasks)
    {
      TrimSpec(newTask);
      if Trim(newTask) != [] {
        var task := NewTask(newTask, newCategory, newPriority, newDueDate, now, nowIso);
        if TextsTrimmed(tasks) {
          AppendKeepsTextsTrimmed(tasks, newTask, newCategory, newPriority, newDueDate, now, nowIso);
        }
        if UniqueIds(tasks) && (forall t :: t in tasks ==> t.id != now) {
          AppendKeepsUniqueIds(tasks, task);
        }
        tasks := tasks + [task];
        stored := tasks;
        newTask := "";
        newDueDate := "";
      }
    }

    /** Deleting by id: every task carrying `id` goes, the others keep their
        relative order (see WithoutIdKeepsOrder), and storage follows. */
    method DeleteTask(id: int)
      requires Valid()
      modifies this
      ensures Valid()
      ensures tasks == WithoutId(old(tasks), id)
      ensures |tasks| == |old(tasks)| - CountId(old(tasks), id)
      ensures forall t :: t in tasks ==> t.id != id
      ensures newTask == old(newTask) && newCategory == old(newCategory)
      ensures newPriority == old(newPriority) && newDueDate == old(newDueDate)
      ensures editTask == old(editTask) && openDialog == old(openDialog)
      ensures TextsTrimmed(old(tasks)) ==> TextsTrimmed(tasks)
      ensures UniqueIds(old(tasks)) ==> UniqueIds(tasks)
    {
      WithoutIdLength(tasks, id);
      WithoutIdMembers(tasks, id);
      if TextsTrimmed(tasks) { WithoutIdKeepsTextsTrimmed(tasks, id); }
      if UniqueIds(tasks) { WithoutIdKeepsUniqueIds(tasks, id); }
      tasks := WithoutId(tasks, id);
      stored := tasks;
    }

    /** Opening the editor on `task`: the buffer takes the task's fields and
        the dialog opens; the list is untouched. */
    method EditClick(task: Task)
      requires Valid()
      modifies this
      ensures Valid()
      ensures editTask.id == Some(task.id) && editTask.text == task.text
      ensures editTask.category == task.category && editTask.priority == task.priority
      ensures editTask.dueDate == task.dueDate && editTask.createdAt == Some(task.createdAt)
      ensures openDialog
      ensures tasks == old(tasks)
      ensures newTask == old(newTask) && newCategory == old(newCategory)
      ensures newPriority == old(newPriority) && newDueDate == old(newDueDate)
    {
      editTask := EditBuffer(Some(task.id), task.text, task.category, task.priority,
                             task.dueDate, Some(task.createdAt));
      openDialog := true;
    }

    /** Saving the edit. Blank buffer text changes nothing. Otherwise the
        tasks whose id matches the buffer's are replaced in place
        (EditMatchingSpec: same length and order, id and creation time
        kept, new text, category, priority and due date), storage follows,
        the dialog closes and the buffer is emptied. */
    method EditSave()
      requires Valid()
      modifies this
      ensures Valid()
      ensures IsBlank(old(editTask.text)) ==>
        tasks == old(tasks) && editTask == old(editTask) && openDialog == old(openDialog)
      ensures !IsBlank(old(editTask.text)) ==>
        && tasks == EditMatching(old(tasks), old(editTask.id), Trim(old(editTask.text)),
                                 old(editTask.category), old(editTask.priority),
                                 old(editTask.dueDate))
        && editTask == EmptyEdit && !openDialog
      ensures newTask == old(newTask) && newCategory == old(newCategory)
      ensures newPriority == old(newPriority) && newDueDate == old(newDueDate)
      ensures TextsTrimmed(old(tasks)) ==> TextsTrimmed(tasks)
      ensures UniqueIds(old(tasks)) ==> UniqueIds(tasks)
    {
      var text := Trim(editTask.text);
      TrimSpec(editTask.text);
      if text != [] {
        if TextsTrimmed(tasks) {
          EditMatchingKeepsTextsTrimmed(tasks, editTask.id, editTask.text, editTask.category,
                                        editTask.priority, editTask.dueDate);
        }
        if UniqueIds(tasks) {
          EditMatchingKeepsUniqueIds(tasks, editTask.id, text, editTask.category,
                                     editTask.priority, editTask.dueDate);
        }
        tasks := EditMatching(tasks, editTask.id, text, editTask.category,
                              editTask.priority, editTask.dueDate);
        stored := tasks;
        openDialog := false;
        editTask := EmptyEdit;
      }
    }

    /** Closing the dialog (Cancel or clicking outside) keeps the buffer. */
    method CloseDialog()
      requires Valid()
      modifies this`openDialog
      ensures Valid() && !openDialog
    {
      openDialog := false;
    }

    /** Typing in the new-task text field. */
    method SetNewTask(value: string)
      requires Valid()
      modifies this`newTask
      ensures Valid() && newTask == value
    {
      newTask := value;
    }

    /** Choosing the new task's category. */
    method SetNewCategory(value: string)
      requires Valid()
      modifies this`newCategory
      ensures Valid() && newCategory == value
    {
      newCategory := value;
    }

    /** Choosing the new task's priority. */
    method SetNewPriority(value: string)
      requires Valid()
      modifies this`newPriority
      ensures Valid() && newPriority == value
    {
      newPriority := value;
    }

    /** Choosing the new task's due date. */
    method SetNewDueDate(value: string)
      requires Valid()
      modifies this`newDueDate
      ensures Valid() && newDueDate == value
    {
      newDueDate := value;
    }

    /** Typing in the edit dialog's text field. */
    method SetEditText(value: string)
      requires Valid()
      modifies this`editTask
      ensures Valid() && editTask == old(editTask).(text := value)
    {
      editTask := editTask.(text := value);
    }

    /** Choosing the edited task's category. */
    method SetEditCategory(value: string)
      requires Valid()
      modifies this`editTask
      ensures Valid() && editTask == old(editTask).(category := value)
    {
      editTask := editTask.(category := value);
    }

    /** Choosing the edited task's priority. */
    method SetEditPriority(value: string)
      requires Valid()
      modifies this`editTask
      ensures Valid() && editTask == old(editTask).(priority := value)
    {
      editTask := editTask.(priority := value);
    }

    /** Choosing the edited task's due date. */
    method SetEditDueDate(value: string)
      requires Valid()
      modifies this`editTask
      ensures Valid() && editTask == old(editTask).(dueDate := value)
    {
      editTask := editTask.(dueDate := value);
    }
  }

  /** A session on a fresh component: create a task, edit it, delete it.
      What each step promises is enough to know the list and the stored
      copy after each one, and the session ends where it started. */
  method Session(text: string, category: string, priority: string, dueDate: string,
                 now: int, nowIso: string, newText: string, newDueDate: string)
    requires !IsBlank(text) && !IsBlank(newText)
  {
    var m := new TaskManager(None);
    m.SetNewTask(text);
    m.SetNewCategory(category);
    m.SetNewPriority(priority);
    m.SetNewDueDate(dueDate);
    m.AddTask(now, nowIso);
    var created := Task(now, Trim(text), category, priority, dueDate, nowIso);
    assert m.tasks == [created] && m.stored == [created];
    assert m.newTask == "" && m.newDueDate == "" && m.newCategory == category;

    m.EditClick(m.tasks[0]);
    m.SetEditText(newText);
    m.SetEditDueDate(newDueDate);
    ghost var before, buffer := m.tasks, m.editTask;
    m.EditSave();
    EditMatchingAt(before, buffer.id, Trim(buffer.text), buffer.category, buffer.priority,
                   buffer.dueDate, 0);
    var edited := created.(text := Trim(newText), dueDate := newDueDate);
    assert m.tasks[0] == edited;
    assert m.tasks == [edited] && m.stored == [edited];
    assert !m.openDialog && m.editTask == EmptyEdit;

    m.DeleteTask(now);
    assert m.tasks == [] && m.stored == [];
  }
}
