/**
 * The page that writes a new post: its form state, the submit that
 * validates before sending, and the errors it shows when the request fails.
 */
module CreateBlogPage {
  import opened JsText
  import opened Options
  import opened FormErrors
  import opened BlogForm

  const CreateFallback := "Failed to create blog. Please try again."

  class CreateBlog {
    var title: string
    var content: string
    /** The messages shown under the fields and above the form (`general`). */
    var errors: map<string, string>

    /** An empty form with no errors. */
    constructor()
      ensures title == "" && content == "" && errors == map[]
    {
      title := "";
      content := "";
      errors := map[];
    }

    /** Typing `value` into `field`: the field takes the value as typed and
        its error, if one is shown, is blanked; the other field keeps its
        value. */
    method HandleChange(field: Field, value: string)
      modifies this
      ensures field == Title ==> title == value && content == old(content)
      ensures field == Content ==> content == value && title == old(title)
      ensures errors == ClearedOnEdit(old(errors), field.Name())
    {
      if field == Title {
        title := value;
      } else {
        content := value;
      }
      var name := field.Name();
      if name in errors && errors[name] != "" {
        errors := errors[name := ""];
      }
    }

    /** Submitting the form: when validation fails the page shows the
        validation errors and sends nothing; otherwise it clears every error
        and sends the trimmed title and content. The fields keep what the
        user typed either way. */
    method HandleSubmit() returns (request: Option<Draft>)
      modifies this
      ensures title == old(title) && content == old(content)
      ensures !ClientAccepts(title, content) ==>
        request == None && errors == ValidationErrors(title, content)
      ensures ClientAccepts(title, content) ==>
        request == Some(Payload(title, content)) && errors == map[]
    {
      var validationErrors := ValidateForm(title, content);
      if |validationErrors| > 0 {
        errors := validationErrors;
        return None;
      }
      errors := map[];
      request := Some(Draft(Trim(title), Trim(content)));
    }

    /** A failed create request: the server's errors array when the body
        has one, otherwise its message or the page's fallback under
        `general`. */
    method OnCreateFailed(failure: ApiFailure)
      modifies this
      ensures title == old(title) && content == old(content)
      ensures errors == FailureErrors(failure, CreateFallback)
    {
      if failure.errors.Some? {
        errors := ServerErrorsToMap(failure.errors.value);
      } else {
        errors := map[General := MessageOr(failure, CreateFallback)];
      }
    }

    /** Cancelling asks for confirmation exactly when either field holds
        something other than white space. */
    function CancelAsksConfirm(): (ask: bool)
      reads this
      ensures ask <==> !(AllWhiteSpace(title) && AllWhiteSpace(content))
    {
      TrimEmptyIff(title);
      TrimEmptyIff(content);
      Trim(title) != [] || Trim(content) != []
    }
  }

  /** A form that passes validation always asks before it is discarded. */
  lemma AcceptedFormAsksBeforeCancel(page: CreateBlog)
    requires ClientAccepts(page.title, page.content)
    ensures page.CancelAsksConfirm()
  {
  }
}
