/**
 * The page that edits a post: it loads the post into the form, remembers
 * the loaded values, sends an update only when validation passes and
 * something changed, and turns failures into messages.
 */
module EditBlogPage {
  import opened JsText
  import opened Options
  import opened FormErrors
  import opened BlogForm
  import BlogModel
  import BlogRoutes

  const NotFoundMessage := "Blog not found."
  const OwnOnlyMessage := "You can only edit your own blogs."
  const LoadFallback := "Failed to load blog. Please try again."
  const UpdateFallback := "Failed to update blog. Please try again."

  /** What a submit leads to: the validation errors are shown, the page goes
      back to the post without a request, or the update is sent. */
  datatype EditAction = ShowErrors | NavigateOnly | SendUpdate(draft: Draft)

  /** The `general` message of a failed load, by response status. */
  function LoadErrorMessage(status: Option<int>): (msg: string)
    ensures status == Some(404) <==> msg == NotFoundMessage
    ensures status == Some(403) <==> msg == OwnOnlyMessage
    ensures msg in {NotFoundMessage, OwnOnlyMessage, LoadFallback}
  {
    if status == Some(404) then NotFoundMessage
    else if status == Some(403) then OwnOnlyMessage
    else LoadFallback
  }

  /** The errors shown after a failed update: a 403 always shows the
      ownership message, whatever its body says; otherwise the server's
      errors array, its message, or the fallback. */
  function UpdateFailureErrors(failure: ApiFailure): (m: map<string, string>)
    ensures failure.status == Some(403) ==> m == map[General := OwnOnlyMessage]
    ensures failure.status != Some(403) ==> m == FailureErrors(failure, UpdateFallback)
  {
    if failure.status == Some(403) then map[General := OwnOnlyMessage]
    else FailureErrors(failure, UpdateFallback)
  }

  class EditBlog {
    var title: string
    var content: string
    var errors: map<string, string>
    /** The values the post had when it was loaded; `None` until a load
        succeeds (the page starts from an empty object). */
    var original: Option<Draft>

    constructor()
      ensures title == "" && content == "" && errors == map[] && original == None
    {
      title := "";
      content := "";
      errors := map[];
      original := None;
    }

    /** The form differs from what was loaded. Before a successful load
        there is nothing to compare with, so the form always counts as
        changed. */
    function HasChanges(): (changed: bool)
      reads this
      ensures original == None ==> changed
      ensures original.Some? ==>
        (changed <==> title != original.value.title || content != original.value.content)
    {
      match original
      case None => true
      case Some(d) => title != d.title || content != d.content
    }

    /** A successful load fills the form and remembers the loaded values. */
    method OnLoaded(post: BlogModel.Post)
      modifies this
      ensures title == post.title && content == post.content
      ensures original == Some(Draft(post.title, post.content))
      ensures errors == old(errors)
      ensures !HasChanges()
    {
      title := post.title;
      content := post.content;
      original := Some(Draft(post.title, post.content));
    }

    /** A failed load shows one `general` message chosen by status. */
    method OnLoadFailed(status: Option<int>)
      modifies this
      ensures errors == map[General := LoadErrorMessage(status)]
      ensures title == old(title) && content == old(content) && original == old(original)
    {
      if status == Some(404) {
        errors := map[General := NotFoundMessage];
      } else if status == Some(403) {
        errors := map[General := OwnOnlyMessage];
      } else {
        errors := map[General := LoadFallback];
      }
    }

    /** Typing into a field, as on the create page. */
    method HandleChange(field: Field, value: string)
      modifies this
      ensures field == Title ==> title == value && content == old(content)
      ensures field == Content ==> content == value && title == old(title)
      ensures errors == ClearedOnEdit(old(errors), field.Name())
      ensures original == old(original)
    {
      if field == Title {
        title := value;
      } else {
        content := value;
      }
      var name := field.Name();
      if name in errors && errors[name] != "" {
        errors := errors[name := ""];
      }
    }

    /** Submitting: validation comes first; a valid form without changes
        goes back to the post and leaves the errors as they were; only a
        valid, changed form clears the errors and sends the trimmed values. */
    method HandleSubmit() returns (action: EditAction)
      modifies this
      ensures title == old(title) && content == old(content) && original == old(original)
      ensures !ClientAccepts(title, content) ==>
        action == ShowErrors && errors == ValidationErrors(title, content)
      ensures ClientAccepts(title, content) && !HasChanges() ==>
        action == NavigateOnly && errors == old(errors)
      ensures ClientAccepts(title, content) && HasChanges() ==>
        action == SendUpdate(Payload(title, content)) && errors == map[]
      ensures ClientAccepts(title, content) ==> (action.SendUpdate? <==> CancelAsksConfirm())
    {
      var validationErrors := ValidateForm(title, content);
      if |validationErrors| > 0 {
        errors := validationErrors;
        return ShowErrors;
      }
      if !HasChanges() {
        return NavigateOnly;
      }
      errors := map[];
      action := SendUpdate(Draft(Trim(title), Trim(content)));
    }

    /** A failed update request. */
    method OnUpdateFailed(failure: ApiFailure)
      modifies this
      ensures errors == UpdateFailureErrors(failure)
      ensures title == old(title) && content == old(content) && original == old(original)
    {
      if failure.status == Some(403) {
        errors := map[General := OwnOnlyMessage];
      } else if failure.errors.Some? {
        errors := ServerErrorsToMap(failure.errors.value);
      } else {
        errors := map[General := MessageOr(failure, UpdateFallback)];
      }
    }

    /** Cancelling asks for confirmation exactly when the form has changes:
        always before a successful load, and afterwards when either field
        differs from the loaded value. */
    function CancelAsksConfirm(): (ask: bool)
      reads this
      ensures original == None ==> ask
      ensures original.Some? ==>
        (ask <==> title != original.value.title || content != original.value.content)
    {
      HasChanges()
    }
  }

  /** The page loads posts through the public read route, which answers 404
      for a missing id, a malformed id and an unpublished post alike; the
      page shows `Blog not found.` for all three. */
  lemma LoadOfHiddenPostSaysNotFound(posts: map<BlogModel.PostId, BlogModel.Post>,
                                     rawId: Option<BlogModel.PostId>)
    requires rawId.None? || rawId.value !in posts || !posts[rawId.value].published
    ensures LoadErrorMessage(Some(BlogRoutes.GetReply(posts, rawId).Status())) == NotFoundMessage
  {
  }

  /** The public read route never answers 403, so the load-time ownership
      message can never appear: another user's published post loads into
      the form, and ownership is refused only when the update is sent. */
  lemma LoadNeverSaysOwnOnly(posts: map<BlogModel.PostId, BlogModel.Post>,
                             rawId: Option<BlogModel.PostId>)
    ensures LoadErrorMessage(Some(BlogRoutes.GetReply(posts, rawId).Status())) != OwnOnlyMessage
  {
  }

  /** When the update route rejects the body with 400, the page shows the
      server's messages under the same field names as its own validation. */
  lemma RejectedUpdateShowsFieldErrors(title: string, content: string, message: Option<string>)
    requires !BlogRoutes.ServerAccepts(title, content)
    ensures var m := UpdateFailureErrors(ApiFailure(Some(400),
                       Some(AsApiErrors(BlogRoutes.ServerValidate(title, content))), message));
      && m != map[]
      && m.Keys <= {"title", "content"}
      && ("title" in m <==> !(1 <= |Trim(title)| <= BlogModel.MaxTitleLength))
      && ("content" in m <==> Trim(content) == [])
  {
    ServerErrorsLandOnFields(title, content);
  }

  /** A loaded page whose cancel goes through without asking loses nothing:
      sending its values instead would leave the stored post exactly as it
      is (the routes store trimmed fields). */
  lemma SilentCancelLosesNothing(page: EditBlog, post: BlogModel.Post, now: nat)
    requires page.original == Some(Draft(post.title, post.content))
    requires IsTrimmed(post.title) && IsTrimmed(post.content)
    requires !page.CancelAsksConfirm()
    ensures var d := Payload(page.title, page.content);
      BlogModel.Edited(post, Trim(d.title), Trim(d.content), now) == post
  {
    TrimmedIff(post.title);
    TrimmedIff(post.content);
    WhiteSpaceOnlyEditKeepsPost(post, page.title, page.content, now);
  }

  /** The update route refuses another user's post with 403; the page shows
      its own ownership message rather than the server's. */
  lemma ForbiddenUpdateShowsOwnMessage(body: Option<string>, errs: Option<seq<ApiError>>)
    ensures UpdateFailureErrors(ApiFailure(Some(BlogRoutes.Reply<BlogModel.Post>.Forbidden(BlogRoutes.EditDenied).Status()), errs, body))
      == map[General := OwnOnlyMessage]
  {
  }

  /** The page compares untrimmed values, so an edit that only adds
      surrounding white space is sent; the server trims it back to the
      stored values and the post, its slug and its `updatedAt` stay exactly
      as they were. */
  lemma WhiteSpaceOnlyEditKeepsPost(post: BlogModel.Post, title: string, content: string, now: nat)
    requires Trim(title) == post.title && Trim(content) == post.content
    ensures var d := Payload(title, content);
      BlogModel.Edited(post, Trim(d.title), Trim(d.content), now) == post
  {
    TrimIdempotent(title);
    TrimIdempotent(content);
  }
}
