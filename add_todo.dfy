/**
  The add form: a text buffer that the input overwrites, a submit handler
  that forwards the trimmed text only when it is non-blank and then empties
  the buffer, and a submit button disabled while the buffer is blank.
 */
module AddTodo {
  import opened Wrappers
  import opened Text

  class AddForm {
    var text: string

    /** The form starts with an empty buffer. */
    constructor ()
      ensures text == ""
    {
      text := "";
    }

    /** A change event replaces the buffer with the input's value. */
    method Change(value: string)
      modifies this
      ensures text == value
    {
      text := value;
    }

    /** The submit button is disabled exactly while the buffer is blank. */
    predicate SubmitDisabled()
      reads this
      ensures SubmitDisabled() <==> AllSpace(text)
    {
      Trim(text) == []
    }

    /**
      Submitting a non-blank buffer calls `onAdd` once with the trimmed text
      and empties the buffer; a blank buffer calls nothing and stays as it is.
      What is forwarded is never empty and has no white space at either end.
     */
    method Submit() returns (added: Option<string>)
      modifies this
      ensures old(SubmitDisabled()) <==> added == None
      ensures !AllSpace(old(text)) ==> added == Some(Trim(old(text))) && text == ""
      ensures AllSpace(old(text)) ==> added == None && text == old(text)
      ensures added.Some? ==> added.value != [] && IsTrimmed(added.value)
    {
      var trimmed := Trim(text);
      if trimmed != [] {
        added := Some(trimmed);
        text := "";
      } else {
        added := None;
      }
    }
  }
}
