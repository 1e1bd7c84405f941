/**
 * The page that shows one post: who counts as its author, how its content
 * is cut into paragraphs, when the "Updated" note shows, and the message
 * of a failed load.
 */
module BlogDetailPage {
  import opened JsText
  import opened Options
  import BlogModel
  import BlogRoutes

  const NotFoundMessage := "Blog not found."
  const LoadFallback := "Failed to load blog. Please try again."
  const Anonymous := "Anonymous"

  /** The signed-in user as the page sees it; its `id` may be absent. */
  datatype SessionUser = SessionUser(id: Option<string>)

  /** The populated author of a fetched post: its `_id` and `name`. */
  datatype AuthorRef = AuthorRef(id: Option<string>, name: Option<string>)

  /** `isAuthenticated && user && blog.author && user.id === blog.author._id`:
      the Edit and Delete actions show exactly when this holds. Two absent
      ids compare equal. */
  function IsAuthor(isAuthenticated: bool, user: Option<SessionUser>, author: Option<AuthorRef>)
    : (b: bool)
    ensures b ==> isAuthenticated && user.Some? && author.Some?
    ensures isAuthenticated && user.Some? && author.Some? ==>
      (b <==> user.value.id == author.value.id)
  {
    isAuthenticated && user.Some? && author.Some? && user.value.id == author.value.id
  }

  /** For a signed-in user with an id, viewing a post whose author id was
      populated, the page shows the author actions exactly when the update
      and delete routes would let that user through their ownership check. */
  lemma AuthorActionsMatchOwnership(caller: BlogModel.UserId, p: BlogModel.Post, name: Option<string>)
    ensures IsAuthor(true, Some(SessionUser(Some(caller))), Some(AuthorRef(Some(p.author), name)))
        <==> p.author == caller
  {
  }

  /** A signed-in user without an id counts as the author of a post whose
      author has no id either. */
  lemma AbsentIdsCountAsAuthor(name: Option<string>)
    ensures IsAuthor(true, Some(SessionUser(None)), Some(AuthorRef(None, name)))
  {
  }

  /** The byline: the author's name when the post carries a non-empty one,
      `Anonymous` when the author, the name or its text is missing. */
  function AuthorName(author: Option<AuthorRef>): (shown: string)
    ensures shown != ""
    ensures author.Some? && author.value.name.Some? && author.value.name.value != "" ==>
      shown == author.value.name.value
    ensures !(author.Some? && author.value.name.Some? && author.value.name.value != "") ==>
      shown == Anonymous
  {
    if author.Some? && author.value.name.Some? && author.value.name.value != "" then
      author.value.name.value
    else Anonymous
  }

  /** `formatContent`: one paragraph per line of the content. */
  function Paragraphs(content: string): (ps: seq<string>)
    ensures |ps| >= 1
  {
    Split(content, '\n')
  }

  /** There is one paragraph more than there are newlines, no paragraph
      holds a newline, and joining them with newlines gives back the
      content. */
  lemma ParagraphsOfContent(content: string)
    ensures |Paragraphs(content)| == Occurrences(content, '\n') + 1
    ensures forall p :: p in Paragraphs(content) ==> '\n' !in p
    ensures Join(Paragraphs(content), '\n') == content
  {
    SplitPieces(content, '\n');
    JoinSplit(content, '\n');
  }

  /** The "Updated" note shows when the two timestamps differ. */
  predicate ShowsUpdated(p: BlogModel.Post)
  {
    p.updatedAt != p.createdAt
  }

  /** A new post shows no "Updated" note. */
  lemma NewPostNotUpdated(id: BlogModel.PostId, title: string, content: string,
                          author: BlogModel.UserId, now: nat)
    ensures !ShowsUpdated(BlogModel.NewPost(id, title, content, author, now))
  {
    BlogModel.NewPostFields(id, title, content, author, now);
  }

  /** After one edit of a new post, the note shows exactly when the edit
      changed the trimmed title or the content, at a time other than the
      creation time. */
  lemma FirstEditShowsUpdated(id: BlogModel.PostId, title: string, content: string,
                              author: BlogModel.UserId, created: nat,
                              newTitle: string, newContent: string, now: nat)
    ensures var p := BlogModel.NewPost(id, title, content, author, created);
      (ShowsUpdated(BlogModel.Edited(p, newTitle, newContent, now))
       <==> (Trim(newTitle) != Trim(title) || newContent != content) && now != created)
  {
    var p := BlogModel.NewPost(id, title, content, author, created);
    BlogModel.NewPostFields(id, title, content, author, created);
    BlogModel.EditedFields(p, newTitle, newContent, now);
  }

  /** The message of a failed load: only a 404 says the post is missing. */
  function LoadErrorMessage(status: Option<int>): (msg: string)
    ensures msg == NotFoundMessage <==> status == Some(404)
    ensures msg == LoadFallback <==> status != Some(404)
  {
    if status == Some(404) then NotFoundMessage else LoadFallback
  }

  /** A missing id, a malformed id and an unpublished post all load as
      `Blog not found.`; a published post loads. */
  lemma LoadOutcome(posts: map<BlogModel.PostId, BlogModel.Post>, rawId: Option<BlogModel.PostId>)
    ensures rawId.Some? && rawId.value in posts && posts[rawId.value].published ==>
      BlogRoutes.GetReply(posts, rawId) == BlogRoutes.Ok(posts[rawId.value])
    ensures !(rawId.Some? && rawId.value in posts && posts[rawId.value].published) ==>
      LoadErrorMessage(Some(BlogRoutes.GetReply(posts, rawId).Status())) == NotFoundMessage
  {
  }
}
