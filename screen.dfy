/**
 * The state of the `TodoApp` screen: the task list and the flag that shows
 * the add-task dialog, reassigned by the screen's callbacks. Each callback
 * is a method whose effect on the list is one of the `Todo` transitions.
 */
module TodoScreen {
  import opened Text
  import opened Todo

  class TodoApp {
    var tasks: seq<TodoTask>
    var showDialog: bool

    /** What the callbacks keep true of the list: ids are unique, and every
        stored task has a non-blank trimmed title and a trimmed description. */
    ghost predicate Valid()
      reads this
    {
      UniqueIds(tasks) && AllWellFormed(tasks)
    }

    /** Both state variables start out as `rememberSaveable` gives them on
        first composition: no tasks, dialog hidden. */
    constructor ()
      ensures Valid()
      ensures tasks == [] && !showDialog
    {
      tasks := [];
      showDialog := false;
    }

    /** The floating action button: shows the dialog, leaves the list alone. */
    method OpenDialog()
      requires Valid()
      modifies this
      ensures Valid()
      ensures showDialog && tasks == old(tasks)
    {
      showDialog := true;
    }

    /** Dismissing the dialog (outside tap or Cancel): hides it, leaves the
        list alone. */
    method DismissDialog()
      requires Valid() && showDialog
      modifies this
      ensures Valid()
      ensures !showDialog && tasks == old(tasks)
    {
      showDialog := false;
    }

    /** The checkbox of the task with id `taskId`. */
    method ToggleComplete(taskId: string)
      requires Valid()
      modifies this
      ensures Valid()
      ensures tasks == Toggle(old(tasks), taskId) && showDialog == old(showDialog)
      ensures Ids(tasks) == Ids(old(tasks))
    {
      ToggleKeepsInvariant(tasks, taskId);
      tasks := Toggle(tasks, taskId);
    }

    /** The delete button of the task with id `taskId`. */
    method DeleteTask(taskId: string)
      requires Valid()
      modifies this
      ensures Valid()
      ensures tasks == Delete(old(tasks), taskId) && showDialog == old(showDialog)
      ensures Ids(tasks) == Ids(old(tasks)) - {taskId}
      ensures taskId in Ids(old(tasks)) ==> |tasks| == |old(tasks)| - 1
      ensures taskId !in Ids(old(tasks)) ==> tasks == old(tasks)
    {
      DeleteKeepsInvariant(tasks, taskId);
      if taskId in Ids(tasks) {
        DeleteRemovesOne(tasks, taskId);
      } else {
        DeleteAbsent(tasks, taskId);
      }
      tasks := Delete(tasks, taskId);
    }

    /** The dialog's Add button, with `title` and `description` as typed and
        `id` the fresh id the new task receives. With a blank title nothing
        happens and the dialog stays open; otherwise the trimmed task is
        appended and the dialog closes. */
    method ConfirmAddTask(id: string, title: string, description: string)
      requires Valid() && showDialog
      requires id !in Ids(tasks)
      modifies this
      ensures Valid()
      ensures tasks == ConfirmAdd(old(tasks), id, title, description)
      ensures showDialog == IsBlank(title)
    {
      ConfirmAddKeepsInvariant(tasks, id, title, description);
      if IsNotBlank(title) {
        tasks := Add(tasks, id, Trim(title), Trim(description));
        showDialog := false;
      }
    }
  }
}
