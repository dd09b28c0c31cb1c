/**
 * What renderTasks derives from the task list: the visible tasks under the
 * category and status selectors, the three counters of updateStats, and the
 * one-time clearing of the `isNew` highlight flag.
 */
module View {
  import opened JsArray
  import opened TaskList

  /** The selections getActiveFilters reads: a category (or "all") and a status. */
  datatype Filters = Filters(category: string, status: string)

  /** The predicate renderTasks passes to `tasks.filter`. */
  function Matches(t: Task, f: Filters): (b: bool)
    ensures f.category != "all" && f.category != t.category ==> !b
    ensures f.status == "all" && (f.category == "all" || f.category == t.category) ==> b
    ensures f.status == "pending" ==> (b <==> (f.category == "all" || f.category == t.category) && !t.completed)
    ensures f.status == "completed" ==> (b <==> (f.category == "all" || f.category == t.category) && t.completed)
    ensures f.status != "all" && f.status != "pending" && f.status != "completed" ==> !b
  {
    var categoryMatch := f.category == "all" || t.category == f.category;
    var statusMatch := f.status == "all"
      || (f.status == "pending" && !t.completed)
      || (f.status == "completed" && t.completed);
    categoryMatch && statusMatch
  }

  /** The tasks renderTasks shows, in list order. */
  function Visible(ts: seq<Task>, f: Filters): (r: seq<Task>)
    ensures |r| <= |ts|
    ensures forall i :: 0 <= i < |r| ==> r[i] in ts && Matches(r[i], f)
    ensures forall i :: 0 <= i < |ts| && Matches(ts[i], f) ==> ts[i] in r
  {
    Filter(ts, t => Matches(t, f))
  }

  /**
   * The visible list is the subsequence of the list made of exactly the
   * tasks matching both selectors, each as often as in the list.
   */
  lemma VisibleExact(ts: seq<Task>, f: Filters)
    ensures IsSubsequence(Visible(ts, f), ts)
    ensures forall t :: multiset(Visible(ts, f))[t] == if Matches(t, f) then multiset(ts)[t] else 0
  {
    FilterIsSubsequence(ts, t => Matches(t, f));
    FilterCounts(ts, t => Matches(t, f));
  }

  /** Both selectors on "all" show the whole list. */
  lemma VisibleAllAll(ts: seq<Task>)
    ensures Visible(ts, Filters("all", "all")) == ts
  {
    FilterKeepsAll(ts, t => Matches(t, Filters("all", "all")));
  }

  /** A status other than "all", "pending" and "completed" shows nothing. */
  lemma VisibleUnknownStatus(ts: seq<Task>, f: Filters)
    requires f.status != "all" && f.status != "pending" && f.status != "completed"
    ensures Visible(ts, f) == []
  {
    FilterKeepsNone(ts, t => Matches(t, f));
  }

  /** For a fixed category, the pending and the completed views split the "all" view. */
  lemma VisibleStatusPartition(ts: seq<Task>, category: string)
    ensures |Visible(ts, Filters(category, "pending"))| + |Visible(ts, Filters(category, "completed"))|
            == |Visible(ts, Filters(category, "all"))|
  {
    var all := Visible(ts, Filters(category, "all"));
    FilterPartition(all, IsPending, IsCompleted);
    VisibleOfVisible(ts, Filters(category, "all"), Filters(category, "pending"));
    VisibleOfVisible(ts, Filters(category, "all"), Filters(category, "completed"));
    FilterSamePredicate(all, IsPending, t => Matches(t, Filters(category, "pending")));
    FilterSamePredicate(all, IsCompleted, t => Matches(t, Filters(category, "completed")));
  }

  /** Filtering a view further with a narrower selection is filtering the list with it. */
  lemma {:induction false} VisibleOfVisible(ts: seq<Task>, wide: Filters, narrow: Filters)
    requires forall t :: Matches(t, narrow) ==> Matches(t, wide)
    ensures Filter(Visible(ts, wide), t => Matches(t, narrow)) == Visible(ts, narrow)
  {
    if ts != [] {
      VisibleOfVisible(ts[1..], wide, narrow);
    }
  }

  /** After "clear completed", the "completed" view is empty whatever the category. */
  lemma NothingCompletedAfterClear(ts: seq<Task>, category: string)
    ensures Visible(WithoutCompleted(ts), Filters(category, "completed")) == []
  {
    var r := WithoutCompleted(ts);
    FilterKeepsNone(r, t => Matches(t, Filters(category, "completed")));
  }

  /** The three counters updateStats shows. */
  datatype Counts = Counts(total: int, completed: int, pending: int)

  /**
   * updateStats: the total, the number of completed tasks and the rest.
   * The completed count is what the "completed" view shows with category
   * "all", and the pending count is the length of the list that "clear
   * completed" would leave.
   */
  function UpdateStats(ts: seq<Task>): (c: Counts)
    ensures c.total == |ts| && c.total == c.completed + c.pending
    ensures 0 <= c.completed <= c.total
    ensures c.completed == |Visible(ts, Filters("all", "completed"))|
    ensures c.pending == |WithoutCompleted(ts)|
  {
    var total := |ts|;
    var completed := |Filter(ts, IsCompleted)|;
    FilterPartition(ts, IsCompleted, IsPending);
    FilterSamePredicate(ts, IsCompleted, t => Matches(t, Filters("all", "completed")));
    Counts(total, completed, total - completed)
  }

  /** After "clear completed" no task counts as completed and the total is the former pending count. */
  lemma StatsAfterClearCompleted(ts: seq<Task>)
    ensures UpdateStats(WithoutCompleted(ts)).completed == 0
    ensures UpdateStats(WithoutCompleted(ts)).total == UpdateStats(ts).pending
  {
    NothingCompletedAfterClear(ts, "all");
  }

  function ClearNewIfShown(t: Task, f: Filters): Task {
    if Matches(t, f) then t.(isNew := false) else t
  }

  /**
   * The list after renderTasks has dropped the `isNew` flag of every task it
   * showed: same length, only `isNew` can change, and it is cleared exactly
   * on the visible tasks.
   */
  function ClearedNew(ts: seq<Task>, f: Filters): (r: seq<Task>)
    ensures |r| == |ts|
    ensures forall i :: 0 <= i < |ts| ==>
      r[i].(isNew := ts[i].isNew) == ts[i] && r[i].isNew == (ts[i].isNew && !Matches(ts[i], f))
  {
    Map(ts, t => ClearNewIfShown(t, f))
  }

  /** Once rendered, no visible task is new any more, and the visible set is the same. */
  lemma ClearedNewHidesHighlight(ts: seq<Task>, f: Filters)
    ensures forall i :: 0 <= i < |ClearedNew(ts, f)| ==>
      Matches(ClearedNew(ts, f)[i], f) == Matches(ts[i], f)
    ensures forall i :: 0 <= i < |Visible(ClearedNew(ts, f), f)| ==> !Visible(ClearedNew(ts, f), f)[i].isNew
  {
    var r := ClearedNew(ts, f);
    var v := Visible(r, f);
    forall i | 0 <= i < |v| ensures !v[i].isNew {
      var k :| 0 <= k < |r| && r[k] == v[i];
    }
  }

  /** Rendering a list with a task in front treats the task and the rest separately. */
  lemma ClearedNewUnshifted(ts: seq<Task>, t: Task, f: Filters)
    ensures ClearedNew(Unshifted(ts, t), f) == Unshifted(ClearedNew(ts, f), ClearNewIfShown(t, f))
  {
    var l := ClearedNew(Unshifted(ts, t), f);
    var r := Unshifted(ClearedNew(ts, f), ClearNewIfShown(t, f));
    assert forall i :: 1 <= i < |l| ==> l[i] == r[i];
  }

  /** Rendering again with the same selection clears nothing more. */
  lemma ClearedNewIdempotent(ts: seq<Task>, f: Filters)
    ensures ClearedNew(ClearedNew(ts, f), f) == ClearedNew(ts, f)
  {
    var r := ClearedNew(ts, f);
    var r2 := ClearedNew(r, f);
    assert forall i :: 0 <= i < |ts| ==> r2[i] == r[i];
  }

  /** Clearing the flag changes neither ids, nor the forms' guarantees, nor the counters. */
  lemma ClearedNewKeepsInvariants(ts: seq<Task>, f: Filters)
    ensures UniqueIds(ClearedNew(ts, f)) == UniqueIds(ts)
    ensures AllWellFormed(ClearedNew(ts, f)) == AllWellFormed(ts)
    ensures UpdateStats(ClearedNew(ts, f)) == UpdateStats(ts)
  {
    var r := ClearedNew(ts, f);
    assert forall i :: 0 <= i < |ts| ==>
      r[i].id == ts[i].id && r[i].title == ts[i].title && r[i].category == ts[i].category
      && r[i].due == ts[i].due && r[i].completed == ts[i].completed;
    CompletedCountOnCompleted(ts, r);
  }

  /** Adding a well-formed task with a fresh id, then rendering, keeps both list invariants. */
  lemma RenderedAddKeepsInvariants(ts: seq<Task>, t: Task, f: Filters)
    ensures UniqueIds(ts) && !HasId(ts, t.id) ==> UniqueIds(ClearedNew(Unshifted(ts, t), f))
    ensures AllWellFormed(ts) && WellFormed(t) ==> AllWellFormed(ClearedNew(Unshifted(ts, t), f))
  {
    var u := Unshifted(ts, t);
    if UniqueIds(ts) && !HasId(ts, t.id) {
      UnshiftFreshKeepsUniqueIds(ts, t);
    }
    if AllWellFormed(ts) && WellFormed(t) {
      assert forall i :: 1 <= i < |u| ==> u[i] == ts[i - 1];
    }
    ClearedNewKeepsInvariants(u, f);
  }

  /** Two lists that agree position by position on `completed` have as many completed tasks. */
  lemma {:induction false} CompletedCountOnCompleted(a: seq<Task>, b: seq<Task>)
    requires |a| == |b|
    requires forall i :: 0 <= i < |a| ==> a[i].completed == b[i].completed
    ensures |Filter(a, IsCompleted)| == |Filter(b, IsCompleted)|
  {
    if a != [] {
      CompletedCountOnCompleted(a[1..], b[1..]);
    }
  }
}
