/**
  The list controller: the component that owns the task list and the active
  filter, the six operations that replace the list (each a prepend, `map` or
  `filter` over it) with the notification each one raises, and the pure
  projections the page renders from the list (the visible subset and the
  counts).
 */
module TodoApp {
  import opened Wrappers
  import opened Seqs
  import opened TodoItem
  import opened TodoFilters
  import opened Text

  /**
    A toast raised by an operation: which message it is, the number it
    reports where it reports one, and whether it is shown as destructive.
   */
  datatype Notice =
    | TodoAdded
    | TaskCompleted
    | TaskReactivated
    | TodoDeleted
    | TodoUpdated
    | CompletedCleared(removed: nat)
    | AllMarkedComplete(marked: nat)
  {
    predicate Destructive() { TodoDeleted? }
  }

  /** The figures shown beside the filter buttons. */
  datatype Counts = Counts(total: nat, active: nat, completed: nat)

  // ---------------------------------------------------------------------
  // List transformations
  // ---------------------------------------------------------------------

  /** The records carrying `id`, in list order. */
  function Matching(s: seq<Todo>, id: string): seq<Todo> {
    Filter(s, (t: Todo) => t.id == id)
  }

  /** The toggle `map`: flips `completed` on every record with `id`; nothing else changes. */
  function Toggled(s: seq<Todo>, id: string): (r: seq<Todo>)
    ensures |r| == |s|
    ensures forall i :: 0 <= i < |s| ==>
      r[i].id == s[i].id && r[i].text == s[i].text && r[i].createdAt == s[i].createdAt
    ensures forall i :: 0 <= i < |s| ==>
      r[i].completed == (if s[i].id == id then !s[i].completed else s[i].completed)
  {
    if s == [] then []
    else
      var t := s[0];
      var rest := Toggled(s[1..], id);
      var r := [if t.id == id then t.(completed := !t.completed) else t] + rest;
      assert forall i :: 0 < i < |s| ==> r[i] == rest[i - 1] && s[i] == s[1..][i - 1];
      r
  }

  /** The toast for one flipped record, chosen by its state after the flip. */
  function ToggleNotice(before: Todo): Notice {
    if !before.completed then TaskCompleted else TaskReactivated
  }

  /**
    The toasts the toggle `map` raises: its callback raises one for every
    record it flips, so one per matching record, in list order.
   */
  function ToggleNotices(s: seq<Todo>, id: string): (r: seq<Notice>)
    ensures |r| == |Matching(s, id)|
    ensures forall k :: 0 <= k < |r| ==> r[k] == ToggleNotice(Matching(s, id)[k])
  {
    if s == [] then []
    else (if s[0].id == id then [ToggleNotice(s[0])] else []) + ToggleNotices(s[1..], id)
  }

  /** The delete `filter`: the records whose id is not `id`. */
  function Removed(s: seq<Todo>, id: string): (r: seq<Todo>)
    ensures forall t :: t in r ==> t in s && t.id != id
    ensures forall t :: t in s && t.id != id ==> multiset(r)[t] == multiset(s)[t]
    ensures IsSubsequence(r, s)
  {
    FilterOrder(s, (t: Todo) => t.id != id);
    Filter(s, (t: Todo) => t.id != id)
  }

  /** The edit `map`: replaces `text` on every record with `id`; nothing else changes. */
  function Edited(s: seq<Todo>, id: string, newText: string): (r: seq<Todo>)
    ensures |r| == |s|
    ensures forall i :: 0 <= i < |s| ==>
      r[i].id == s[i].id && r[i].completed == s[i].completed && r[i].createdAt == s[i].createdAt
    ensures forall i :: 0 <= i < |s| ==>
      r[i].text == (if s[i].id == id then newText else s[i].text)
  {
    if s == [] then []
    else
      var t := s[0];
      var rest := Edited(s[1..], id, newText);
      var r := [if t.id == id then t.(text := newText) else t] + rest;
      assert forall i :: 0 < i < |s| ==> r[i] == rest[i - 1] && s[i] == s[1..][i - 1];
      r
  }

  /** The mark-all `map`: every record completed, ids, texts and timestamps unchanged. */
  function AllCompleted(s: seq<Todo>): (r: seq<Todo>)
    ensures |r| == |s|
    ensures forall i :: 0 <= i < |s| ==>
      r[i].completed && r[i].id == s[i].id && r[i].text == s[i].text && r[i].createdAt == s[i].createdAt
  {
    if s == [] then []
    else
      var rest := AllCompleted(s[1..]);
      var r := [s[0].(completed := true)] + rest;
      assert forall i :: 0 < i < |s| ==> r[i] == rest[i - 1] && s[i] == s[1..][i - 1];
      r
  }

  // ---------------------------------------------------------------------
  // Projections
  // ---------------------------------------------------------------------

  /** The filter callback of the visible-list projection. */
  predicate Shows(f: FilterType, t: Todo) {
    if f == Active then !t.completed
    else if f == Completed then t.completed
    else true
  }

  /**
    The visible list: the whole list under `All`, otherwise exactly the
    records the filter admits, in list order.
   */
  function Visible(s: seq<Todo>, f: FilterType): (r: seq<Todo>)
    ensures f == All ==> r == s
    ensures forall t :: t in s ==> (t in r <==> Shows(f, t))
    ensures forall t :: t in r ==> t in s
    ensures IsSubsequence(r, s)
  {
    var r := Filter(s, (t: Todo) => Shows(f, t));
    FilterOrder(s, (t: Todo) => Shows(f, t));
    if f == All then FilterKeepsAll(s, (t: Todo) => Shows(f, t)); r else r
  }

  /** The counts: the total is the list length and splits into active and completed. */
  function CountsOf(s: seq<Todo>): (c: Counts)
    ensures c.total == |s|
    ensures c.total == c.active + c.completed
    ensures c.active == |Visible(s, Active)| && c.completed == |Visible(s, Completed)|
  {
    FilterSplit(s, IsActive, IsCompleted);
    VisibleByFlag(s);
    Counts(|s|, |Filter(s, IsActive)|, |Filter(s, IsCompleted)|)
  }

  // ---------------------------------------------------------------------
  // Properties of the transformations
  // ---------------------------------------------------------------------

  /** The Active and Completed views are the list filtered on the `completed` flag. */
  lemma VisibleByFlag(s: seq<Todo>)
    ensures Visible(s, Active) == Filter(s, IsActive)
    ensures Visible(s, Completed) == Filter(s, IsCompleted)
  {
    FilterSamePredicate(s, (t: Todo) => Shows(Active, t), IsActive);
    FilterSamePredicate(s, (t: Todo) => Shows(Completed, t), IsCompleted);
  }

  /** The Active and Completed views partition the list. */
  lemma ViewsPartition(s: seq<Todo>)
    ensures |Visible(s, Active)| + |Visible(s, Completed)| == |s|
    ensures multiset(Visible(s, Active)) + multiset(Visible(s, Completed)) == multiset(s)
    ensures forall t :: !(t in Visible(s, Active) && t in Visible(s, Completed))
  {
    VisibleByFlag(s);
    FilterSplit(s, IsActive, IsCompleted);
  }

  /** A view is non-empty exactly when some record of the list shows in it. */
  lemma ViewNonEmpty(s: seq<Todo>, f: FilterType)
    ensures |Visible(s, f)| != 0 <==> exists i :: 0 <= i < |s| && Shows(f, s[i])
  {
    var r := Visible(s, f);
    if r != [] {
      assert r[0] in s;
      var i :| 0 <= i < |s| && s[i] == r[0];
      assert Shows(f, s[i]);
    }
    if exists i :: 0 <= i < |s| && Shows(f, s[i]) {
      var i :| 0 <= i < |s| && Shows(f, s[i]);
      assert s[i] in s;
      assert s[i] in r;
    }
  }

  /** Toggling the same id twice restores the list. */
  lemma ToggleTwice(s: seq<Todo>, id: string)
    ensures Toggled(Toggled(s, id), id) == s
  {
    var r := Toggled(Toggled(s, id), id);
    assert forall i :: 0 <= i < |s| ==> r[i] == s[i];
  }

  /** Toggling an absent id changes nothing and raises no toast. */
  lemma {:induction false} ToggleAbsent(s: seq<Todo>, id: string)
    requires id !in Ids(s)
    ensures Toggled(s, id) == s
    ensures ToggleNotices(s, id) == []
  {
    if s != [] {
      assert s[0] in s;
      assert Ids(s[1..]) <= Ids(s);
      ToggleAbsent(s[1..], id);
    }
  }

  /** In a list with unique ids, the record at `i` is the only one carrying its id. */
  lemma {:induction false} MatchingUnique(s: seq<Todo>, i: nat)
    requires UniqueIds(s) && i < |s|
    ensures Matching(s, s[i].id) == [s[i]]
  {
    var id := s[i].id;
    if i == 0 {
      MatchingAbsent(s[1..], id);
    } else {
      MatchingUnique(s[1..], i - 1);
    }
  }

  /** No record carries an id that does not occur in the list. */
  lemma {:induction false} MatchingAbsent(s: seq<Todo>, id: string)
    requires forall j :: 0 <= j < |s| ==> s[j].id != id
    ensures Matching(s, id) == []
  {
    if s != [] {
      MatchingAbsent(s[1..], id);
    }
  }

  /**
    With unique ids, toggling a present id flips exactly that record and
    raises exactly one toast, "completed" when the record was active.
   */
  lemma ToggleUnique(s: seq<Todo>, i: nat)
    requires UniqueIds(s) && i < |s|
    ensures ToggleNotices(s, s[i].id) == [ToggleNotice(s[i])]
    ensures ToggleNotices(s, s[i].id)[0] == TaskCompleted <==> !s[i].completed
  {
    MatchingUnique(s, i);
    var r := ToggleNotices(s, s[i].id);
    assert |r| == 1 && r[0] == ToggleNotice(s[i]);
  }

  /** A filter of a list with unique ids has unique ids. */
  lemma {:induction false} FilterKeepsUnique(s: seq<Todo>, keep: Todo -> bool)
    requires UniqueIds(s)
    ensures UniqueIds(Filter(s, keep))
  {
    if s != [] {
      var tail := s[1..];
      FilterKeepsUnique(tail, keep);
      var rest := Filter(tail, keep);
      if keep(s[0]) {
        var r := [s[0]] + rest;
        assert Filter(s, keep) == r;
        forall j | 0 < j < |r|
          ensures r[j].id != s[0].id
        {
          assert r[j] in rest;
          var k :| 0 <= k < |tail| && tail[k] == r[j];
          assert tail[k] == s[k + 1];
        }
      } else {
        assert Filter(s, keep) == rest;
      }
    }
  }

  /**
    Deleting a present id from a list with unique ids removes exactly one
    record; deleting an absent id changes nothing.
   */
  lemma DeleteCount(s: seq<Todo>, id: string)
    ensures id !in Ids(s) ==> Removed(s, id) == s
    ensures UniqueIds(s) && id in Ids(s) ==> |Removed(s, id)| == |s| - 1
    ensures UniqueIds(s) ==> UniqueIds(Removed(s, id))
  {
    var p := (t: Todo) => t.id == id;
    var q := (t: Todo) => t.id != id;
    if id !in Ids(s) {
      assert forall i :: 0 <= i < |s| ==> s[i] in s;
      FilterKeepsAll(s, q);
    }
    if UniqueIds(s) {
      FilterKeepsUnique(s, q);
      if id in Ids(s) {
        var i :| 0 <= i < |s| && s[i].id == id;
        MatchingUnique(s, i);
        FilterSplit(s, p, q);
      }
    }
  }

  /** A text as the forms forward it: non-empty, with no white space at either end. */
  predicate CleanText(x: string) {
    x != [] && IsTrimmed(x)
  }

  /** Every text in the list is clean. */
  predicate CleanTexts(s: seq<Todo>) {
    forall t :: t in s ==> CleanText(t.text)
  }

  /** A list of the same length whose texts are taken from `s` or are `x` has clean texts. */
  lemma CleanPointwise(s: seq<Todo>, r: seq<Todo>, x: string)
    requires CleanTexts(s) && CleanText(x) && |r| == |s|
    requires forall i :: 0 <= i < |s| ==> r[i].text == s[i].text || r[i].text == x
    ensures CleanTexts(r)
  {
    forall u | u in r ensures CleanText(u.text) {
      var i :| 0 <= i < |r| && r[i] == u;
      assert s[i] in s;
    }
  }

  /**
    The texts the forms forward (non-empty, trimmed) are the only texts that
    enter the list, and no operation makes a stored text blank.
   */
  lemma TextsStayClean(s: seq<Todo>, t: Todo, id: string, newText: string)
    requires CleanTexts(s)
    ensures CleanText(t.text) ==> CleanTexts([t] + s)
    ensures CleanText(newText) ==> CleanTexts(Edited(s, id, newText))
    ensures CleanTexts(Toggled(s, id)) && CleanTexts(AllCompleted(s))
    ensures CleanTexts(Removed(s, id)) && CleanTexts(Filter(s, IsActive))
  {
    if CleanText(newText) {
      CleanPointwise(s, Edited(s, id, newText), newText);
    }
    if s != [] {
      CleanPointwise(s, Toggled(s, id), s[0].text);
      CleanPointwise(s, AllCompleted(s), s[0].text);
    }
  }

  /** Adding a record with a fresh id keeps ids unique. */
  lemma AddKeepsUnique(s: seq<Todo>, t: Todo)
    requires UniqueIds(s) && t.id !in Ids(s)
    ensures UniqueIds([t] + s)
  {
    assert forall j :: 0 <= j < |s| ==> s[j] in s;
  }

  /**
    Clearing completed tasks leaves no completed record, keeps exactly the
    previously active records in their order, and removes as many records as
    were completed.
   */
  lemma ClearCompletedSpec(s: seq<Todo>)
    ensures Visible(Filter(s, IsActive), Completed) == []
    ensures Visible(Filter(s, IsActive), Active) == Visible(s, Active)
    ensures |s| - |Filter(s, IsActive)| == |Visible(s, Completed)|
  {
    var r := Filter(s, IsActive);
    VisibleByFlag(s);
    VisibleByFlag(r);
    FilterKeepsAll(r, IsActive);
    FilterSplit(s, IsActive, IsCompleted);
    FilterSplit(r, IsActive, IsCompleted);
  }

  /**
    Marking all complete leaves no active record; when no record was active
    the marked list equals the original one.
   */
  lemma MarkAllSpec(s: seq<Todo>)
    ensures Visible(AllCompleted(s), Active) == []
    ensures |Visible(s, Active)| == 0 ==> AllCompleted(s) == s
  {
    var r := AllCompleted(s);
    assert forall t :: t in r ==> t.completed;
    if |Visible(s, Active)| == 0 {
      assert forall i :: 0 <= i < |s| ==> s[i] in s;
      assert forall i :: 0 <= i < |s| ==> r[i] == s[i];
    }
  }

  // ---------------------------------------------------------------------
  // The component
  // ---------------------------------------------------------------------

  /**
    The list controller's state: the list and the chosen filter. Every
    operation replaces the list and reports the toast it raises. The source
    counts for clear-completed and mark-all from the rendered list and
    updates from the pending one; handlers here run one at a time, so both
    are `todos`.
   */
  class App {
    var todos: seq<Todo>
    var filter: FilterType

    /** Mounting starts with an empty list showing all tasks. */
    constructor ()
      ensures todos == [] && filter == All
    {
      todos := [];
      filter := All;
    }

    /**
      Prepends a new active record with the given id and timestamp (the
      source draws them from `crypto.randomUUID()` and `new Date()`).
     */
    method AddTodo(text: string, id: string, createdAt: int) returns (notice: Notice)
      requires id !in Ids(todos)
      modifies this
      ensures todos == [Todo(id, text, false, createdAt)] + old(todos)
      ensures |todos| == |old(todos)| + 1 && todos[1..] == old(todos)
      ensures UniqueIds(old(todos)) ==> UniqueIds(todos)
      ensures filter == old(filter)
      ensures notice == TodoAdded && !notice.Destructive()
      ensures CleanTexts(old(todos)) && CleanText(text) ==> CleanTexts(todos)
    {
      if CleanTexts(todos) {
        TextsStayClean(todos, Todo(id, text, false, createdAt), id, text);
      }
      var t := Todo(id, text, false, createdAt);
      if UniqueIds(todos) {
        AddKeepsUnique(todos, t);
      }
      todos := [t] + todos;
      notice := TodoAdded;
    }

    /** Flips `completed` on the records with `id`, one toast per flipped record. */
    method ToggleTodo(id: string) returns (notices: seq<Notice>)
      modifies this
      ensures todos == Toggled(old(todos), id)
      ensures notices == ToggleNotices(old(todos), id)
      ensures id !in Ids(old(todos)) ==> todos == old(todos) && notices == []
      ensures UniqueIds(old(todos)) ==> UniqueIds(todos)
      ensures filter == old(filter)
      ensures CleanTexts(old(todos)) ==> CleanTexts(todos)
    {
      if CleanTexts(todos) {
        TextsStayClean(todos, Todo(id, "", false, 0), id, "");
      }
      if id !in Ids(todos) {
        ToggleAbsent(todos, id);
      }
      notices := ToggleNotices(todos, id);
      todos := Toggled(todos, id);
    }

    /** Removes the records with `id`; the destructive toast is raised even if there was none. */
    method DeleteTodo(id: string) returns (notice: Notice)
      modifies this
      ensures todos == Removed(old(todos), id)
      ensures id !in Ids(old(todos)) ==> todos == old(todos)
      ensures UniqueIds(old(todos)) && id in Ids(old(todos)) ==> |todos| == |old(todos)| - 1
      ensures UniqueIds(old(todos)) ==> UniqueIds(todos)
      ensures filter == old(filter)
      ensures notice == TodoDeleted && notice.Destructive()
      ensures CleanTexts(old(todos)) ==> CleanTexts(todos)
    {
      if CleanTexts(todos) {
        TextsStayClean(todos, Todo(id, "", false, 0), id, "");
      }
      DeleteCount(todos, id);
      todos := Removed(todos, id);
      notice := TodoDeleted;
    }

    /** Replaces the text of the records with `id`; the toast is raised even if there was none. */
    method EditTodo(id: string, newText: string) returns (notice: Notice)
      modifies this
      ensures todos == Edited(old(todos), id, newText)
      ensures UniqueIds(old(todos)) ==> UniqueIds(todos)
      ensures filter == old(filter)
      ensures notice == TodoUpdated && !notice.Destructive()
      ensures CleanTexts(old(todos)) && CleanText(newText) ==> CleanTexts(todos)
    {
      if CleanTexts(todos) {
        TextsStayClean(todos, Todo(id, newText, false, 0), id, newText);
      }
      todos := Edited(todos, id, newText);
      notice := TodoUpdated;
    }

    /** Drops the completed records; a toast reports how many, when there were any. */
    method ClearCompleted() returns (notice: Option<Notice>)
      modifies this
      ensures todos == Filter(old(todos), IsActive)
      ensures Visible(todos, Completed) == [] && Visible(todos, Active) == Visible(old(todos), Active)
      ensures UniqueIds(old(todos)) ==> UniqueIds(todos)
      ensures var removed := |old(todos)| - |todos|;
        if removed > 0 then notice == Some(CompletedCleared(removed)) else notice == None
      ensures filter == old(filter)
      ensures CleanTexts(old(todos)) ==> CleanTexts(todos)
    {
      if CleanTexts(todos) {
        TextsStayClean(todos, Todo("", "", false, 0), "", "");
      }
      var completedCount := |Filter(todos, IsCompleted)|;
      ClearCompletedSpec(todos);
      VisibleByFlag(todos);
      if UniqueIds(todos) {
        FilterKeepsUnique(todos, IsActive);
      }
      todos := Filter(todos, IsActive);
      if completedCount > 0 {
        notice := Some(CompletedCleared(completedCount));
      } else {
        notice := None;
      }
    }

    /**
      When some record is active, completes every record and reports how
      many were active; otherwise changes nothing and raises no toast.
     */
    method MarkAllComplete() returns (notice: Option<Notice>)
      modifies this
      ensures var activeCount := |Visible(old(todos), Active)|;
        if activeCount > 0 then todos == AllCompleted(old(todos)) && notice == Some(AllMarkedComplete(activeCount))
        else todos == old(todos) && notice == None
      ensures Visible(todos, Active) == []
      ensures UniqueIds(old(todos)) ==> UniqueIds(todos)
      ensures filter == old(filter)
      ensures CleanTexts(old(todos)) ==> CleanTexts(todos)
    {
      if CleanTexts(todos) {
        TextsStayClean(todos, Todo("", "", false, 0), "", "");
      }
      VisibleByFlag(todos);
      MarkAllSpec(todos);
      var activeCount := |Filter(todos, IsActive)|;
      if activeCount > 0 {
        todos := AllCompleted(todos);
        notice := Some(AllMarkedComplete(activeCount));
      } else {
        notice := None;
      }
    }

    /**
      "Complete All" is rendered for a non-empty list and enabled exactly
      when some record is active, that is, when pressing it changes the list.
     */
    predicate CompleteAllEnabled()
      reads this
      ensures CompleteAllEnabled() <==> exists i :: 0 <= i < |todos| && !todos[i].completed
    {
      ViewNonEmpty(todos, Active);
      |todos| > 0 && CountsOf(todos).active != 0
    }

    /**
      "Clear Completed" is rendered for a non-empty list and enabled exactly
      when some record is completed, that is, when pressing it changes the list.
     */
    predicate ClearCompletedEnabled()
      reads this
      ensures ClearCompletedEnabled() <==> exists i :: 0 <= i < |todos| && todos[i].completed
    {
      ViewNonEmpty(todos, Completed);
      |todos| > 0 && CountsOf(todos).completed != 0
    }

    /** Choosing a filter button changes the view, never the list. */
    method SetFilter(f: FilterType)
      modifies this
      ensures filter == f && todos == old(todos)
    {
      filter := f;
    }

    /** Routes a row's callback to the operation the list hands the row for it. */
    method Dispatch(call: Call) returns (notices: seq<Notice>)
      modifies this
      ensures call.OnToggle? ==> todos == Toggled(old(todos), call.id) && notices == ToggleNotices(old(todos), call.id)
      ensures call.OnDelete? ==> todos == Removed(old(todos), call.id) && notices == [TodoDeleted]
      ensures call.OnEdit? ==> todos == Edited(old(todos), call.id, call.newText) && notices == [TodoUpdated]
      ensures UniqueIds(old(todos)) ==> UniqueIds(todos)
      ensures filter == old(filter)
      ensures CleanTexts(old(todos)) && (call.OnEdit? ==> CleanText(call.newText)) ==> CleanTexts(todos)
    {
      match call
      case OnToggle(id) =>
        notices := ToggleTodo(id);
      case OnDelete(id) =>
        var n := DeleteTodo(id);
        notices := [n];
      case OnEdit(id, newText) =>
        var n := EditTodo(id, newText);
        notices := [n];
    }
  }

  /**
    A worked example, not a model of a source operation: starting empty, add
    a task, complete it, clear completed tasks, and the list is empty again.
   */
  method BuyMilkScenario(id: string, at: int)
  {
    var app := new App();
    var added := app.AddTodo("Buy milk", id, at);
    assert app.todos == [Todo(id, "Buy milk", false, at)];
    var toggled := app.ToggleTodo(id);
    assert app.todos[0].completed && |app.todos| == 1;
    assert toggled == [TaskCompleted];
    var cleared := app.ClearCompleted();
    assert app.todos == [];
    assert cleared == Some(CompletedCleared(1));
  }
}
