/**
  One task record, and the per-row component that shows it: the checkbox and
  delete button that forward the row's id, and the small edit-mode state
  machine (`isEditing`, `editText`) that commits a trimmed, non-blank text.
 */
module TodoItem {
  import opened Wrappers
  import opened Text

  /**
    A task. `createdAt` stands for the JavaScript `Date` as milliseconds
    since the epoch; the model never inspects it beyond keeping it unchanged.
   */
  datatype Todo = Todo(id: string, text: string, completed: bool, createdAt: int)

  predicate IsActive(t: Todo) { !t.completed }

  predicate IsCompleted(t: Todo) { t.completed }

  /** The ids that occur in a list. */
  function Ids(s: seq<Todo>): set<string> {
    set t | t in s :: t.id
  }

  /** No two records of the list share an id. */
  predicate UniqueIds(s: seq<Todo>) {
    forall i, j :: 0 <= i < j < |s| ==> s[i].id != s[j].id
  }

  /** A call from a row to one of the callbacks the list controller hands it. */
  datatype Call =
    | OnToggle(id: string)
    | OnDelete(id: string)
    | OnEdit(id: string, newText: string)

  /**
    The state of one rendered row. `todo` is the row's current prop; the
    list renders rows keyed by id, so a row keeps its local state while the
    record it shows changes, but never switches to another id.
   */
  class ItemState {
    var todo: Todo
    var isEditing: bool
    var editText: string

    /** A freshly mounted row is not editing and its buffer holds the record's text. */
    constructor (todo: Todo)
      ensures this.todo == todo
      ensures !isEditing && editText == todo.text
    {
      this.todo := todo;
      isEditing := false;
      editText := todo.text;
    }

    /** The parent re-renders the row with a new version of the same record. */
    method ReceiveProps(t: Todo)
      requires t.id == todo.id
      modifies this
      ensures todo == t
      ensures isEditing == old(isEditing) && editText == old(editText)
    {
      todo := t;
    }

    /** Typing in the edit box replaces the buffer. */
    method ChangeEditText(value: string)
      modifies this
      ensures editText == value
      ensures todo == old(todo) && isEditing == old(isEditing)
    {
      editText := value;
    }

    /**
      Commit the edit: a non-blank buffer is forwarded, trimmed, to `onEdit`
      exactly once and edit mode ends; a blank buffer forwards nothing and
      leaves edit mode as it was. The buffer itself is never changed.
     */
    method HandleEdit() returns (call: Option<Call>)
      modifies this
      ensures todo == old(todo) && editText == old(editText)
      ensures !AllSpace(editText) ==> call == Some(OnEdit(todo.id, Trim(editText))) && !isEditing
      ensures AllSpace(editText) ==> call == None && isEditing == old(isEditing)
      ensures call.Some? ==> call.value.newText != [] && IsTrimmed(call.value.newText)
    {
      var trimmed := Trim(editText);
      if trimmed != [] {
        call := Some(OnEdit(todo.id, trimmed));
        isEditing := false;
      } else {
        call := None;
      }
    }

    /** Abandon the edit: the buffer goes back to the record's text and edit mode ends. */
    method HandleCancel()
      modifies this
      ensures todo == old(todo)
      ensures editText == todo.text && !isEditing
    {
      editText := todo.text;
      isEditing := false;
    }

    /** A key pressed in the edit box: Enter commits, Escape cancels, any other key does nothing. */
    method KeyDown(key: string) returns (call: Option<Call>)
      modifies this
      ensures todo == old(todo)
      ensures key == "Enter" ==>
        editText == old(editText) &&
        (!AllSpace(editText) ==> call == Some(OnEdit(todo.id, Trim(editText))) && !isEditing) &&
        (AllSpace(editText) ==> call == None && isEditing == old(isEditing))
      ensures key == "Escape" ==> call == None && editText == todo.text && !isEditing
      ensures key != "Enter" && key != "Escape" ==>
        call == None && editText == old(editText) && isEditing == old(isEditing)
    {
      call := None;
      if key == "Enter" {
        call := HandleEdit();
      }
      if key == "Escape" {
        HandleCancel();
      }
    }

    /** Clicking the shown text enters edit mode, unless the task is completed. */
    method ClickText()
      modifies this
      ensures todo == old(todo) && editText == old(editText)
      ensures isEditing == (old(isEditing) || !todo.completed)
    {
      if !todo.completed {
        isEditing := true;
      }
    }

    /** The edit button is rendered only outside edit mode and for an active task. */
    predicate EditButtonShown()
      reads this
      ensures isEditing || todo.completed ==> !EditButtonShown()
      ensures !isEditing && IsActive(todo) ==> EditButtonShown()
    {
      !isEditing && !todo.completed
    }

    /** Clicking the (rendered) edit button enters edit mode. */
    method ClickEditButton()
      requires EditButtonShown()
      modifies this
      ensures todo == old(todo) && editText == old(editText)
      ensures isEditing
    {
      isEditing := true;
    }

    /** The checkbox forwards the row's id to `onToggle`, whatever the edit state. */
    method ClickCheckbox() returns (call: Call)
      ensures call == OnToggle(todo.id)
    {
      call := OnToggle(todo.id);
    }

    /** The delete button forwards the row's id to `onDelete`, whatever the edit state. */
    method ClickDelete() returns (call: Call)
      ensures call == OnDelete(todo.id)
    {
      call := OnDelete(todo.id);
    }
  }
}
