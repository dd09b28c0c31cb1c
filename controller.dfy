/**
 * The checks the two form handlers make before touching the list, and the
 * lookup openEditModal does to fill the edit form.
 */
module Controller {
  import opened Results
  import opened JsArray
  import opened JsString
  import opened TaskList

  const AddAlert: string := "Please fill all fields to add a task."
  const EditAlert: string := "Please complete all fields before saving changes."

  /** The fields the add form hands to addTask. */
  datatype AddData = AddData(title: string, category: string, due: string)

  /**
   * The add form's check: the title is trimmed, and the submission is refused
   * with an alert when the title is only white space or the category or the
   * due date is empty.
   */
  function CheckAddForm(rawTitle: string, category: string, due: string): (r: Result<AddData>)
    ensures r.Err? <==>
      (forall k :: 0 <= k < |rawTitle| ==> IsWhiteSpace(rawTitle[k])) || category == [] || due == []
    ensures r.Err? ==> r.alert == AddAlert
    ensures r.Ok? ==> r.value == AddData(Trim(rawTitle), category, due)
    ensures r.Ok? ==> WellFormedFields(r.value.title, r.value.category, r.value.due)
  {
    var title := Trim(rawTitle);
    TrimIdempotent(rawTitle);
    if title == [] || category == [] || due == [] then Err(AddAlert)
    else Ok(AddData(title, category, due))
  }

  /**
   * The edit form's check: the same rule as the add form, with its own
   * alert; the completion checkbox is passed through.
   */
  function CheckEditForm(rawTitle: string, category: string, due: string, completed: bool): (r: Result<EditData>)
    ensures r.Err? <==>
      (forall k :: 0 <= k < |rawTitle| ==> IsWhiteSpace(rawTitle[k])) || category == [] || due == []
    ensures r.Err? ==> r.alert == EditAlert
    ensures r.Ok? ==> r.value == EditData(Trim(rawTitle), category, due, completed)
    ensures r.Ok? ==> WellFormedEdit(r.value)
  {
    var title := Trim(rawTitle);
    TrimIdempotent(rawTitle);
    if title == [] || category == [] || due == [] then Err(EditAlert)
    else Ok(EditData(title, category, due, completed))
  }

  /** A task added from an accepted add form is well formed. */
  lemma AcceptedAddIsWellFormed(rawTitle: string, category: string, due: string, id: string, createdAt: string)
    requires CheckAddForm(rawTitle, category, due).Ok?
    ensures var d := CheckAddForm(rawTitle, category, due).value;
      WellFormed(NewTask(id, d.title, d.category, d.due, createdAt))
  {
  }

  /** The values openEditModal loads into the edit form. */
  datatype EditForm = EditForm(id: string, title: string, category: string, due: string, completed: bool)

  function FormOf(t: Task): EditForm {
    EditForm(t.id, t.title, t.category, t.due, t.completed)
  }

  /**
   * openEditModal's lookup: the form of the first task with that id, or
   * nothing (the modal stays closed) when no task has it.
   */
  function EditFormFor(ts: seq<Task>, id: string): (r: Option<EditForm>)
    ensures r.None? <==> !HasId(ts, id)
    ensures r.Some? ==>
      exists k :: 0 <= k < |ts| && ts[k].id == id && r.value == FormOf(ts[k])
        && forall i :: 0 <= i < k ==> ts[i].id != id
  {
    match Find(ts, (t: Task) => t.id == id)
    case None => None
    case Some(t) => Some(FormOf(t))
  }

  /**
   * Opening the edit form of a task and saving it without changes is
   * accepted and leaves the list as it was -- provided ids are unique and the
   * task came from the forms; with a duplicate id every task of that id would
   * take the first one's fields.
   */
  lemma ReopenAndSaveUnchanged(ts: seq<Task>, id: string)
    requires UniqueIds(ts) && AllWellFormed(ts) && HasId(ts, id)
    ensures var f := EditFormFor(ts, id).value;
      var r := CheckEditForm(f.title, f.category, f.due, f.completed);
      r == Ok(EditData(f.title, f.category, f.due, f.completed)) && Updated(ts, id, r.value) == ts
  {
    var f := EditFormFor(ts, id).value;
    var k :| 0 <= k < |ts| && ts[k].id == id && f == FormOf(ts[k]);
    CheckEditFormAcceptsWellFormed(ts[k]);
    UpdatedWithOwnFields(ts, k);
  }

  /** The edit check accepts, unchanged, the fields of a task the forms created. */
  lemma CheckEditFormAcceptsWellFormed(t: Task)
    requires WellFormed(t)
    ensures CheckEditForm(t.title, t.category, t.due, t.completed)
            == Ok(EditData(t.title, t.category, t.due, t.completed))
  {
  }

  /** With unique ids, writing a task's own fields back changes nothing. */
  lemma UpdatedWithOwnFields(ts: seq<Task>, k: nat)
    requires UniqueIds(ts) && k < |ts|
    ensures Updated(ts, ts[k].id, EditData(ts[k].title, ts[k].category, ts[k].due, ts[k].completed)) == ts
  {
    var d := EditData(ts[k].title, ts[k].category, ts[k].due, ts[k].completed);
    var u := Updated(ts, ts[k].id, d);
    forall i | 0 <= i < |ts| ensures u[i] == ts[i] {
      if ts[i].id == ts[k].id {
        assert i == k;
      }
    }
  }
}
