/**
 * The post form shared by the create and edit pages: its two fields, the
 * client-side validation they run before sending, and how that validation
 * relates to the rules the post routes apply.
 */
module BlogForm {
  import opened JsText
  import opened FormErrors
  import opened Options
  import BlogModel
  import BlogRoutes

  const TitleRequired := "Title is required"
  const TitleTooLong := "Title must be less than 200 characters"
  const ContentRequired := "Content is required"
  const ContentTooShort := "Content must be at least 10 characters"
  const MaxTitle: nat := 200
  const MinContent: nat := 10

  /** The two inputs of the form, by their `name` attribute. */
  datatype Field = Title | Content
  {
    function Name(): string
    {
      match this
      case Title => "title"
      case Content => "content"
    }
  }

  /** The body a page sends: the trimmed title and content. */
  datatype Draft = Draft(title: string, content: string)

  /** What `validateForm` lets through. */
  predicate ClientAccepts(title: string, content: string)
  {
    1 <= |Trim(title)| <= MaxTitle && |Trim(content)| >= MinContent
  }

  /** The errors `validateForm` reports: at most one per field, "required"
      for an empty trimmed value, otherwise the length rule. A title of
      exactly 200 characters passes. */
  function ValidationErrors(title: string, content: string): (errors: map<string, string>)
    ensures errors == map[] <==> ClientAccepts(title, content)
    ensures errors.Keys <= {"title", "content"}
    ensures "title" in errors <==> !(1 <= |Trim(title)| <= MaxTitle)
    ensures "title" in errors ==>
      (errors["title"] == TitleRequired <==> Trim(title) == [])
      && (errors["title"] == TitleTooLong <==> |Trim(title)| > MaxTitle)
    ensures "content" in errors <==> |Trim(content)| < MinContent
    ensures "content" in errors ==>
      (errors["content"] == ContentRequired <==> Trim(content) == [])
      && (errors["content"] == ContentTooShort <==> 1 <= |Trim(content)| < MinContent)
  {
    var t := Trim(title);
    var c := Trim(content);
    var titleErrors: map<string, string> :=
      if 1 <= |t| <= MaxTitle then map[]
      else map["title" := if t == [] then TitleRequired else TitleTooLong];
    assert !(1 <= |t| <= MaxTitle) ==> "title" in titleErrors;
    if |c| >= MinContent then titleErrors
    else
      var errors := titleErrors["content" := if c == [] then ContentRequired else ContentTooShort];
      assert "content" in errors;
      errors
  }

  /** `validateForm`: fills `newErrors` field by field. */
  method ValidateForm(title: string, content: string) returns (newErrors: map<string, string>)
    ensures newErrors == ValidationErrors(title, content)
  {
    newErrors := map[];
    var t := Trim(title);
    if t == [] {
      newErrors := newErrors["title" := TitleRequired];
    } else if |t| > MaxTitle {
      newErrors := newErrors["title" := TitleTooLong];
    }
    var c := Trim(content);
    if c == [] {
      newErrors := newErrors["content" := ContentRequired];
    } else if |c| < MinContent {
      newErrors := newErrors["content" := ContentTooShort];
    }
  }

  /** The payload a page sends after validation passes. */
  function Payload(title: string, content: string): Draft
  {
    Draft(Trim(title), Trim(content))
  }

  /** The trimmed payload a page sends after validation passes is accepted
      by the server, whose own trim leaves it as it is. */
  lemma PayloadAccepted(title: string, content: string)
    requires ClientAccepts(title, content)
    ensures var d := Payload(title, content);
      && BlogRoutes.ServerAccepts(d.title, d.content)
      && Trim(d.title) == d.title && Trim(d.content) == d.content
  {
    TrimIdempotent(title);
    TrimIdempotent(content);
  }

  /** A 400 body as the pages read it. */
  function AsApiErrors(errs: seq<BlogRoutes.FieldError>): (r: seq<ApiError>)
    ensures |r| == |errs|
    ensures forall i :: 0 <= i < |errs| ==> r[i] == ApiError(Some(errs[i].param), errs[i].msg)
  {
    if errs == [] then [] else [ApiError(Some(errs[0].param), errs[0].msg)] + AsApiErrors(errs[1..])
  }

  /** When the server rejects a body with 400, the page files the server's
      messages under the same field names as its own errors. */
  lemma ServerErrorsLandOnFields(title: string, content: string)
    requires !BlogRoutes.ServerAccepts(title, content)
    ensures var m := ErrorsMap(AsApiErrors(BlogRoutes.ServerValidate(title, content)));
      && m != map[]
      && m.Keys <= {"title", "content"}
      && ("title" in m <==> !(1 <= |Trim(title)| <= BlogModel.MaxTitleLength))
      && ("title" in m ==> m["title"] == BlogRoutes.TitleMessage)
      && ("content" in m <==> Trim(content) == [])
      && ("content" in m ==> m["content"] == BlogRoutes.ContentMessage)
  {
    var titleBad := !(1 <= |Trim(title)| <= BlogModel.MaxTitleLength);
    var contentBad := Trim(content) == [];
    var api := AsApiErrors(BlogRoutes.ServerValidate(title, content));
    var t := ApiError(Some("title"), BlogRoutes.TitleMessage);
    var c := ApiError(Some("content"), BlogRoutes.ContentMessage);
    assert ErrorKey(t) == "title" && ErrorKey(c) == "content";
    if titleBad && contentBad {
      assert api == [t, c];
      assert api[..1] == [t];
      assert ErrorsMap(api[..1]) == map["title" := BlogRoutes.TitleMessage];
      assert ErrorsMap(api) == map["title" := BlogRoutes.TitleMessage, "content" := BlogRoutes.ContentMessage];
      assert "title" in ErrorsMap(api);
    } else if titleBad {
      assert api == [t];
      assert ErrorsMap(api) == map["title" := BlogRoutes.TitleMessage];
      assert "title" in ErrorsMap(api);
    } else {
      assert api == [c];
      assert ErrorsMap(api) == map["content" := BlogRoutes.ContentMessage];
      assert "content" in ErrorsMap(api);
    }
  }
}
