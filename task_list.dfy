/**
 * The task records and the list transformations behind each change to the
 * module-level `tasks` array: unshift for add, map for toggle and edit,
 * filter for delete and clear-completed.
 */
module TaskList {
  import opened JsArray
  import opened JsString

  /** One task record. `isNew` marks a task that has not been rendered yet. */
  datatype Task = Task(
    id: string,
    title: string,
    category: string,
    due: string,
    completed: bool,
    createdAt: string,
    isNew: bool)

  /** The four fields the edit form submits. */
  datatype EditData = EditData(title: string, category: string, due: string, completed: bool)

  predicate HasId(ts: seq<Task>, id: string) {
    exists i :: 0 <= i < |ts| && ts[i].id == id
  }

  /** No two tasks share an id. */
  predicate UniqueIds(ts: seq<Task>) {
    forall i, j :: 0 <= i < j < |ts| ==> ts[i].id != ts[j].id
  }

  /** What the forms guarantee of the fields they accept: a trimmed, non-empty title and non-empty category and due date. */
  predicate WellFormedFields(title: string, category: string, due: string) {
    title != [] && Trim(title) == title && category != [] && due != []
  }

  predicate WellFormed(t: Task) {
    WellFormedFields(t.title, t.category, t.due)
  }

  predicate AllWellFormed(ts: seq<Task>) {
    forall i :: 0 <= i < |ts| ==> WellFormed(ts[i])
  }

  /** The record addTask builds; the id and the creation date come from outside. */
  function NewTask(id: string, title: string, category: string, due: string, createdAt: string): (t: Task)
    ensures !t.completed && t.isNew
    ensures t.id == id && t.title == title && t.category == category && t.due == due && t.createdAt == createdAt
    ensures WellFormedFields(title, category, due) ==> WellFormed(t)
  {
    Task(id, title, category, due, false, createdAt, true)
  }

  /** `tasks.unshift(task)`. */
  function Unshifted(ts: seq<Task>, t: Task): (r: seq<Task>)
    ensures |r| == |ts| + 1 && r[0] == t && r[1..] == ts
  {
    [t] + ts
  }

  /** Adding a task whose id is not yet used keeps the ids unique. */
  lemma UnshiftFreshKeepsUniqueIds(ts: seq<Task>, t: Task)
    requires UniqueIds(ts) && !HasId(ts, t.id)
    ensures UniqueIds(Unshifted(ts, t))
  {
    var r := Unshifted(ts, t);
    forall i, j | 0 <= i < j < |r| ensures r[i].id != r[j].id {
      if i == 0 {
        assert r[j] == ts[j - 1];
      } else {
        assert r[i] == ts[i - 1] && r[j] == ts[j - 1];
      }
    }
  }

  /** Adding a task whose id is already used breaks uniqueness: addTask relies on generateId. */
  lemma UnshiftTakenBreaksUniqueIds(ts: seq<Task>, t: Task)
    requires HasId(ts, t.id)
    ensures !UniqueIds(Unshifted(ts, t))
  {
    var i :| 0 <= i < |ts| && ts[i].id == t.id;
    assert Unshifted(ts, t)[i + 1] == ts[i];
  }

  // ---------------------------------------------------------------- toggle

  function FlipIfMatch(t: Task, id: string): Task {
    if t.id == id then t.(completed := !t.completed) else t
  }

  /**
   * `tasks.map(t => t.id === id ? {...t, completed: !t.completed} : t)`:
   * same length, `completed` flipped exactly on the tasks with that id,
   * every other field of every task unchanged.
   */
  function Toggled(ts: seq<Task>, id: string): (r: seq<Task>)
    ensures |r| == |ts|
    ensures forall i :: 0 <= i < |ts| ==>
      r[i].completed == (ts[i].completed != (ts[i].id == id))
      && r[i].(completed := ts[i].completed) == ts[i]
  {
    Map(ts, t => FlipIfMatch(t, id))
  }

  /** Toggling twice restores the list. */
  lemma ToggledTwice(ts: seq<Task>, id: string)
    ensures Toggled(Toggled(ts, id), id) == ts
  {
    var r := Toggled(Toggled(ts, id), id);
    assert forall i :: 0 <= i < |ts| ==> r[i] == ts[i];
  }

  /** Toggling an id no task has changes nothing. */
  lemma ToggledAbsent(ts: seq<Task>, id: string)
    requires !HasId(ts, id)
    ensures Toggled(ts, id) == ts
  {
    var r := Toggled(ts, id);
    assert forall i :: 0 <= i < |ts| ==> r[i] == ts[i];
  }

  lemma ToggledKeepsInvariants(ts: seq<Task>, id: string)
    ensures UniqueIds(Toggled(ts, id)) == UniqueIds(ts)
    ensures AllWellFormed(ts) ==> AllWellFormed(Toggled(ts, id))
  {
    var r := Toggled(ts, id);
    assert forall i :: 0 <= i < |ts| ==> r[i].id == ts[i].id && r[i].title == ts[i].title;
  }

  // ---------------------------------------------------------------- delete

  /** `tasks.filter(t => t.id !== id)`. */
  function WithoutId(ts: seq<Task>, id: string): (r: seq<Task>)
    ensures |r| <= |ts|
    ensures forall i :: 0 <= i < |r| ==> r[i] in ts && r[i].id != id
    ensures forall i :: 0 <= i < |ts| && ts[i].id != id ==> ts[i] in r
  {
    Filter(ts, (t: Task) => t.id != id)
  }

  /**
   * Deleting keeps, in their order, exactly the tasks with another id, each as
   * often as before; no task with that id is left.
   */
  lemma WithoutIdExact(ts: seq<Task>, id: string)
    ensures IsSubsequence(WithoutId(ts, id), ts)
    ensures forall t :: multiset(WithoutId(ts, id))[t] == if t.id != id then multiset(ts)[t] else 0
    ensures !HasId(WithoutId(ts, id), id)
  {
    FilterIsSubsequence(ts, (t: Task) => t.id != id);
    FilterCounts(ts, (t: Task) => t.id != id);
  }

  /** Deleting an id no task has changes nothing; deleting a present one shrinks the list. */
  lemma WithoutIdLength(ts: seq<Task>, id: string)
    ensures !HasId(ts, id) ==> WithoutId(ts, id) == ts
    ensures HasId(ts, id) ==> |WithoutId(ts, id)| < |ts|
  {
    if !HasId(ts, id) {
      FilterKeepsAll(ts, (t: Task) => t.id != id);
    } else {
      var i :| 0 <= i < |ts| && ts[i].id == id;
      FilterPartition(ts, (t: Task) => t.id != id, (t: Task) => t.id == id);
      assert ts[i] in Filter(ts, (t: Task) => t.id == id);
    }
  }

  lemma WithoutIdKeepsInvariants(ts: seq<Task>, id: string)
    ensures UniqueIds(ts) ==> UniqueIds(WithoutId(ts, id))
    ensures AllWellFormed(ts) ==> AllWellFormed(WithoutId(ts, id))
  {
    FilterKeepsUniqueIds(ts, (t: Task) => t.id != id);
  }

  /** Any filter of a list with unique ids has unique ids. */
  lemma {:induction false} FilterKeepsUniqueIds(ts: seq<Task>, p: Task -> bool)
    ensures UniqueIds(ts) ==> UniqueIds(Filter(ts, p))
  {
    if ts != [] && UniqueIds(ts) {
      var tail := ts[1..];
      assert UniqueIds(tail) by {
        forall i, j | 0 <= i < j < |tail| ensures tail[i].id != tail[j].id {
          assert tail[i] == ts[i + 1] && tail[j] == ts[j + 1];
        }
      }
      FilterKeepsUniqueIds(tail, p);
      if p(ts[0]) {
        var r := Filter(ts, p);
        var rt := Filter(tail, p);
        assert r == [ts[0]] + rt;
        forall i, j | 0 <= i < j < |r| ensures r[i].id != r[j].id {
          if i == 0 {
            assert r[j] == rt[j - 1];
            assert rt[j - 1] in tail;
            var k :| 0 <= k < |tail| && tail[k] == rt[j - 1];
            assert ts[k + 1] == tail[k];
          } else {
            assert r[i] == rt[i - 1] && r[j] == rt[j - 1];
          }
        }
      }
    }
  }

  // ------------------------------------------------------- clear completed

  predicate IsPending(t: Task) { !t.completed }

  predicate IsCompleted(t: Task) { t.completed }

  /** `tasks.filter(t => !t.completed)`. */
  function WithoutCompleted(ts: seq<Task>): (r: seq<Task>)
    ensures |r| <= |ts|
    ensures forall i :: 0 <= i < |r| ==> r[i] in ts && !r[i].completed
    ensures forall i :: 0 <= i < |ts| && !ts[i].completed ==> ts[i] in r
  {
    Filter(ts, IsPending)
  }

  /**
   * Clearing completed tasks keeps, in their order, exactly the pending
   * ones, each as often as before.
   */
  lemma WithoutCompletedExact(ts: seq<Task>)
    ensures IsSubsequence(WithoutCompleted(ts), ts)
    ensures forall t :: multiset(WithoutCompleted(ts))[t] == if !t.completed then multiset(ts)[t] else 0
  {
    FilterIsSubsequence(ts, IsPending);
    FilterCounts(ts, IsPending);
  }

  /** Clearing completed tasks twice is the same as once. */
  lemma WithoutCompletedIdempotent(ts: seq<Task>)
    ensures WithoutCompleted(WithoutCompleted(ts)) == WithoutCompleted(ts)
  {
    var r := WithoutCompleted(ts);
    FilterKeepsAll(r, IsPending);
  }

  lemma WithoutCompletedKeepsInvariants(ts: seq<Task>)
    ensures UniqueIds(ts) ==> UniqueIds(WithoutCompleted(ts))
    ensures AllWellFormed(ts) ==> AllWellFormed(WithoutCompleted(ts))
  {
    FilterKeepsUniqueIds(ts, IsPending);
  }

  // ------------------------------------------------------------------ edit

  /** `{...t, ...newData}`: the edit form's four fields overwrite the task's. */
  function Merge(t: Task, d: EditData): (r: Task)
    ensures r.id == t.id && r.createdAt == t.createdAt && r.isNew == t.isNew
    ensures r.title == d.title && r.category == d.category && r.due == d.due && r.completed == d.completed
    ensures WellFormedEdit(d) ==> WellFormed(r)
  {
    t.(title := d.title, category := d.category, due := d.due, completed := d.completed)
  }

  function MergeIfMatch(t: Task, id: string, d: EditData): Task {
    if t.id == id then Merge(t, d) else t
  }

  /**
   * `tasks.map(t => t.id === id ? {...t, ...newData} : t)`: same length;
   * tasks with another id untouched; tasks with that id take the four
   * submitted fields and keep their id, creation date and `isNew` flag.
   */
  function Updated(ts: seq<Task>, id: string, d: EditData): (r: seq<Task>)
    ensures |r| == |ts|
    ensures forall i :: 0 <= i < |ts| ==>
      r[i].id == ts[i].id && r[i].createdAt == ts[i].createdAt && r[i].isNew == ts[i].isNew
    ensures forall i :: 0 <= i < |ts| && ts[i].id != id ==> r[i] == ts[i]
    ensures forall i :: 0 <= i < |ts| && ts[i].id == id ==>
      r[i].title == d.title && r[i].category == d.category
      && r[i].due == d.due && r[i].completed == d.completed
  {
    Map(ts, t => MergeIfMatch(t, id, d))
  }

  /** Editing an id no task has changes nothing. */
  lemma UpdatedAbsent(ts: seq<Task>, id: string, d: EditData)
    requires !HasId(ts, id)
    ensures Updated(ts, id, d) == ts
  {
    var r := Updated(ts, id, d);
    assert forall i :: 0 <= i < |ts| ==> r[i] == ts[i];
  }

  /** Submitting the same edit twice is the same as once. */
  lemma UpdatedIdempotent(ts: seq<Task>, id: string, d: EditData)
    ensures Updated(Updated(ts, id, d), id, d) == Updated(ts, id, d)
  {
    var r := Updated(ts, id, d);
    var r2 := Updated(r, id, d);
    assert forall i :: 0 <= i < |ts| ==> r2[i] == r[i];
  }

  predicate WellFormedEdit(d: EditData) {
    WellFormedFields(d.title, d.category, d.due)
  }

  /** Edits keep ids unique, and an edit with well-formed fields keeps every task well formed. */
  lemma UpdatedKeepsInvariants(ts: seq<Task>, id: string, d: EditData)
    ensures UniqueIds(Updated(ts, id, d)) == UniqueIds(ts)
    ensures AllWellFormed(ts) && WellFormedEdit(d) ==> AllWellFormed(Updated(ts, id, d))
  {
  }
}
