/**
 * The task-list page: the module-level `tasks` array and the closures that
 * change it. Every change ends, as in the page, with a call of renderTasks
 * under the current selectors, which also clears the `isNew` flag of the
 * tasks it shows. Saving to localStorage after each change is not modelled.
 */
module App {
  import opened Results
  import opened JsString
  import opened TaskList
  import opened View
  import opened Controller

  /** What one renderTasks call draws: the cards in order, each with the `isNew` flag it was drawn with, and the counters. */
  datatype Page = Page(cards: seq<Task>, counts: Counts)

  class TaskApp {
    /** The module-level `tasks` array. */
    var tasks: seq<Task>

    constructor ()
      ensures tasks == []
    {
      tasks := [];
    }

    /**
     * renderTasks: draws the visible tasks and the counters, and drops the
     * `isNew` flag of every visible task once its highlight is drawn.
     */
    method RenderTasks(view: Filters) returns (page: Page)
      modifies this
      ensures page.cards == Visible(old(tasks), view)
      ensures tasks == ClearedNew(old(tasks), view)
      ensures page.counts == UpdateStats(tasks)
    {
      var cards := Visible(tasks, view);
      var i := 0;
      while i < |tasks|
        invariant 0 <= i <= |tasks| == |old(tasks)|
        invariant forall k :: 0 <= k < i ==> tasks[k] == ClearNewIfShown(old(tasks)[k], view)
        invariant forall k :: i <= k < |tasks| ==> tasks[k] == old(tasks)[k]
      {
        if Matches(tasks[i], view) && tasks[i].isNew {
          tasks := tasks[i := tasks[i].(isNew := false)];
        }
        i := i + 1;
      }
      page := Page(cards, UpdateStats(tasks));
    }

    /**
     * addTask: the new task, pending and new, goes in front of the list and
     * the page is drawn. The task keeps its `isNew` flag only if the current
     * selectors hide it; the rest of the list is rendered as before.
     */
    method AddTask(id: string, title: string, category: string, due: string, createdAt: string, view: Filters)
      returns (page: Page)
      modifies this
      ensures tasks == ClearedNew(Unshifted(old(tasks), NewTask(id, title, category, due, createdAt)), view)
      ensures |tasks| == |old(tasks)| + 1
      ensures tasks[0] == Task(id, title, category, due, false, createdAt, !Matches(tasks[0], view))
      ensures tasks[1..] == ClearedNew(old(tasks), view)
      ensures page.cards == Visible(Unshifted(old(tasks), NewTask(id, title, category, due, createdAt)), view)
      ensures page.counts == UpdateStats(tasks)
    {
      tasks := Unshifted(tasks, NewTask(id, title, category, due, createdAt));
      ClearedNewUnshifted(old(tasks), NewTask(id, title, category, due, createdAt), view);
      page := RenderTasks(view);
    }

    /** toggleTaskCompleted. */
    method ToggleTaskCompleted(id: string, view: Filters) returns (page: Page)
      modifies this
      ensures tasks == ClearedNew(Toggled(old(tasks), id), view)
      ensures page.cards == Visible(Toggled(old(tasks), id), view)
      ensures page.counts == UpdateStats(tasks)
    {
      tasks := Toggled(tasks, id);
      page := RenderTasks(view);
    }

    /**
     * deleteTask: whether the card fades out for 300 ms first or is missing
     * and the removal is immediate, the list ends up filtered the same way.
     */
    method DeleteTask(id: string, view: Filters) returns (page: Page)
      modifies this
      ensures tasks == ClearedNew(WithoutId(old(tasks), id), view)
      ensures page.cards == Visible(WithoutId(old(tasks), id), view)
      ensures page.counts == UpdateStats(tasks)
    {
      tasks := WithoutId(tasks, id);
      page := RenderTasks(view);
    }

    /** clearCompletedTasks. */
    method ClearCompletedTasks(view: Filters) returns (page: Page)
      modifies this
      ensures tasks == ClearedNew(WithoutCompleted(old(tasks)), view)
      ensures page.cards == Visible(WithoutCompleted(old(tasks)), view)
      ensures page.counts == UpdateStats(tasks)
    {
      tasks := WithoutCompleted(tasks);
      page := RenderTasks(view);
    }

    /** clearAllTasks: nothing happens unless the user confirms. */
    method ClearAllTasks(confirmed: bool, view: Filters) returns (page: Option<Page>)
      modifies this
      ensures !confirmed ==> tasks == old(tasks) && page == None
      ensures confirmed ==> tasks == [] && page == Some(Page([], Counts(0, 0, 0)))
    {
      if !confirmed {
        return None;
      }
      tasks := [];
      var p := RenderTasks(view);
      page := Some(p);
    }

    /** openEditModal: the edit form's values for that id, or nothing when no task has it. */
    method OpenEditModal(id: string) returns (form: Option<EditForm>)
      ensures form == EditFormFor(tasks, id)
    {
      form := EditFormFor(tasks, id);
    }

    /** updateTask. */
    method UpdateTask(id: string, data: EditData, view: Filters) returns (page: Page)
      modifies this
      ensures tasks == ClearedNew(Updated(old(tasks), id, data), view)
      ensures page.cards == Visible(Updated(old(tasks), id, data), view)
      ensures page.counts == UpdateStats(tasks)
    {
      tasks := Updated(tasks, id, data);
      page := RenderTasks(view);
    }

    /**
     * The add form's submit handler. A refused submission leaves the list
     * untouched and returns the alert; an accepted one adds the task with
     * the trimmed title. Ids stay unique when the generated id is fresh, and
     * every task stays well formed.
     */
    method SubmitAddForm(rawTitle: string, category: string, due: string,
                         id: string, createdAt: string, view: Filters)
      returns (alert: Option<string>)
      modifies this
      ensures CheckAddForm(rawTitle, category, due).Err? ==>
        tasks == old(tasks) && alert == Some(AddAlert)
      ensures CheckAddForm(rawTitle, category, due).Ok? ==>
        alert == None
        && tasks == ClearedNew(Unshifted(old(tasks), NewTask(id, Trim(rawTitle), category, due, createdAt)), view)
      ensures old(UniqueIds(tasks)) && !old(HasId(tasks, id)) ==> UniqueIds(tasks)
      ensures old(AllWellFormed(tasks)) ==> AllWellFormed(tasks)
    {
      match CheckAddForm(rawTitle, category, due)
      case Err(msg) =>
        alert := Some(msg);
      case Ok(d) =>
        AcceptedAddIsWellFormed(rawTitle, category, due, id, createdAt);
        RenderedAddKeepsInvariants(tasks, NewTask(id, d.title, d.category, d.due, createdAt), view);
        var _ := AddTask(id, d.title, d.category, d.due, createdAt, view);
        alert := None;
    }

    /**
     * The edit form's submit handler: the same rule as the add form; an
     * accepted submission overwrites the four fields of the tasks with that
     * id. Ids stay unique and every task stays well formed.
     */
    method SubmitEditForm(id: string, rawTitle: string, category: string, due: string,
                          completed: bool, view: Filters)
      returns (alert: Option<string>)
      modifies this
      ensures CheckEditForm(rawTitle, category, due, completed).Err? ==>
        tasks == old(tasks) && alert == Some(EditAlert)
      ensures CheckEditForm(rawTitle, category, due, completed).Ok? ==>
        alert == None
        && tasks == ClearedNew(Updated(old(tasks), id, EditData(Trim(rawTitle), category, due, completed)), view)
      ensures old(UniqueIds(tasks)) ==> UniqueIds(tasks)
      ensures old(AllWellFormed(tasks)) ==> AllWellFormed(tasks)
    {
      match CheckEditForm(rawTitle, category, due, completed)
      case Err(msg) =>
        alert := Some(msg);
      case Ok(d) =>
        ghost var before := tasks;
        var _ := UpdateTask(id, d, view);
        alert := None;
        UpdatedKeepsInvariants(before, id, d);
        ClearedNewKeepsInvariants(Updated(before, id, d), view);
    }
  }
}
