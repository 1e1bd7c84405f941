/**
 * The post routes: the two paginated list queries and the read by id as
 * functions of the stored posts, and create, update and delete as methods
 * of a store object that keeps the documents in a map from id to post.
 */
module BlogRoutes {
  import opened Options
  import opened JsText
  import opened BlogModel
  import opened Pagination

  const TitleMessage := "Title is required and must be less than 200 characters"
  const ContentMessage := "Content is required"
  const EditDenied := "Access denied. You can only edit your own blogs."
  const DeleteDenied := "Access denied. You can only delete your own blogs."
  const ListFailed := "Server error while fetching blogs"
  const MyListFailed := "Server error while fetching your blogs"
  const CreateFailed := "Server error while creating blog"
  const UpdateFailed := "Server error while updating blog"

  /** One entry of the `errors` array of a 400 reply. */
  datatype FieldError = FieldError(param: string, msg: string)

  /** A reply: its status and, where the route sends one, its body. Every 404
      carries the same message, `Blog not found`. */
  datatype Reply<T> =
    | Ok(body: T)
    | Created(body: T)
    | BadRequest(errors: seq<FieldError>)
    | NotFound
    | Forbidden(message: string)
    | ServerError(message: string)
  {
    function Status(): int
    {
      match this
      case Ok(_) => 200
      case Created(_) => 201
      case BadRequest(_) => 400
      case NotFound => 404
      case Forbidden(_) => 403
      case ServerError(_) => 500
    }
  }

  /** The body rules shared by create and update, after their trim sanitizers. */
  predicate ServerAccepts(title: string, content: string)
  {
    1 <= |Trim(title)| <= MaxTitleLength && 1 <= |Trim(content)|
  }

  /** `validationResult(req).array()`: one error for a bad title, then one for
      an empty content. */
  function ServerValidate(title: string, content: string): (errors: seq<FieldError>)
    ensures errors == [] <==> ServerAccepts(title, content)
    ensures FieldError("title", TitleMessage) in errors <==> !(1 <= |Trim(title)| <= MaxTitleLength)
    ensures FieldError("content", ContentMessage) in errors <==> Trim(content) == []
    ensures forall e :: e in errors ==>
      e == FieldError("title", TitleMessage) || e == FieldError("content", ContentMessage)
  {
    (if 1 <= |Trim(title)| <= MaxTitleLength then [] else [FieldError("title", TitleMessage)])
    + (if 1 <= |Trim(content)| then [] else [FieldError("content", ContentMessage)])
  }

  /** Some stored post already uses `slug` (the unique index on `slug`). */
  predicate SlugTaken(posts: map<PostId, Post>, slug: string)
  {
    exists id :: id in posts && posts[id].slug == slug
  }

  ghost predicate SlugsUnique(posts: map<PostId, Post>)
  {
    forall a, b :: a in posts && b in posts && a != b ==> posts[a].slug != posts[b].slug
  }

  /** Every stored post sits under its own id, and that id is below `nextId`. */
  ghost predicate IdsBelow(posts: map<PostId, Post>, nextId: nat)
  {
    forall id :: id in posts ==> posts[id].id == id && id < nextId
  }

  // ---------------------------------------------------------------- reading

  /** `GET /:id`. An id that does not parse as a document id (a `CastError`),
      an id with no document and a document that is not published all give
      the same 404. */
  function GetReply(posts: map<PostId, Post>, rawId: Option<PostId>): (r: Reply<Post>)
    ensures r.Ok? <==> rawId.Some? && rawId.value in posts && posts[rawId.value].published
    ensures r.Ok? ==> r.body == posts[rawId.value]
    ensures !r.Ok? ==> r == NotFound
  {
    if rawId.None? || rawId.value !in posts then NotFound
    else if !posts[rawId.value].published then NotFound
    else Ok(posts[rawId.value])
  }

  /** The query filter of the two list routes. */
  datatype Filter = PublishedOnly | ByAuthor(author: UserId)

  predicate Matches(f: Filter, p: Post)
  {
    match f
    case PublishedOnly => p.published
    case ByAuthor(a) => p.author == a
  }

  /** The matching posts with an id below `n`, in insertion order. */
  function MatchingBelow(posts: map<PostId, Post>, f: Filter, n: nat): seq<Post>
  {
    if n == 0 then []
    else MatchingBelow(posts, f, n - 1)
         + (if n - 1 in posts && Matches(f, posts[n - 1]) then [posts[n - 1]] else [])
  }

  /** The ids of the matching posts below `n`. */
  ghost function MatchingIds(posts: map<PostId, Post>, f: Filter, n: nat): set<PostId>
  {
    set id | 0 <= id < n && id in posts && Matches(f, posts[id])
  }

  /** Every post in the matching list is a stored post, under its own id
      below `n`, that matches. */
  lemma {:induction false} MatchingBelowSound(posts: map<PostId, Post>, f: Filter, n: nat)
    requires forall id :: id in posts ==> posts[id].id == id
    ensures forall p :: p in MatchingBelow(posts, f, n) ==>
      p.id < n && p.id in posts && posts[p.id] == p && Matches(f, p)
  {
    if n > 0 {
      MatchingBelowSound(posts, f, n - 1);
    }
  }

  /** Every stored post below `n` that matches is in the matching list. */
  lemma {:induction false} MatchingBelowComplete(posts: map<PostId, Post>, f: Filter, n: nat)
    ensures forall id :: id in MatchingIds(posts, f, n) ==> posts[id] in MatchingBelow(posts, f, n)
  {
    if n > 0 {
      MatchingBelowComplete(posts, f, n - 1);
      forall id | id in MatchingIds(posts, f, n)
        ensures posts[id] in MatchingBelow(posts, f, n)
      {
        if id < n - 1 {
          assert id in MatchingIds(posts, f, n - 1);
        }
      }
    }
  }

  /** The matching list holds one post per matching id. */
  lemma {:induction false} MatchingBelowCount(posts: map<PostId, Post>, f: Filter, n: nat)
    ensures |MatchingBelow(posts, f, n)| == |MatchingIds(posts, f, n)|
  {
    if n > 0 {
      MatchingBelowCount(posts, f, n - 1);
      var prev := MatchingIds(posts, f, n - 1);
      if n - 1 in posts && Matches(f, posts[n - 1]) {
        assert MatchingIds(posts, f, n) == prev + {n - 1};
        assert n - 1 !in prev;
      } else {
        assert MatchingIds(posts, f, n) == prev;
      }
    }
  }

  /** A post can be read by id exactly when the public list shows it. */
  lemma ReadableIffListed(posts: map<PostId, Post>, nextId: nat, id: PostId)
    requires IdsBelow(posts, nextId)
    ensures GetReply(posts, Some(id)).Ok? <==>
      id in posts && posts[id] in MatchingBelow(posts, PublishedOnly, nextId)
  {
    MatchingBelowSound(posts, PublishedOnly, nextId);
    MatchingBelowComplete(posts, PublishedOnly, nextId);
    if id in posts && posts[id].published {
      assert id in MatchingIds(posts, PublishedOnly, nextId);
    }
  }

  /** `p` before the first post of `s` that is not newer than it. */
  function Insert(p: Post, s: seq<Post>): (r: seq<Post>)
    ensures multiset(r) == multiset(s) + multiset{p}
  {
    if s == [] then [p]
    else if p.createdAt >= s[0].createdAt then [p] + s
    else
      assert s == [s[0]] + s[1..];
      [s[0]] + Insert(p, s[1..])
  }

  /** `.sort({ createdAt: -1 })`, by insertion; among equal timestamps the
      post found first comes first. */
  function NewestFirst(s: seq<Post>): (r: seq<Post>)
    ensures multiset(r) == multiset(s)
  {
    if s == [] then []
    else
      assert s == [s[0]] + s[1..];
      Insert(s[0], NewestFirst(s[1..]))
  }

  predicate IsNewestFirst(s: seq<Post>)
  {
    forall i, j :: 0 <= i < j < |s| ==> s[i].createdAt >= s[j].createdAt
  }

  /** Inserting a post no newer than `bound` into posts no newer than
      `bound` gives posts no newer than `bound`. */
  lemma {:induction false} InsertBelow(p: Post, s: seq<Post>, bound: nat)
    requires p.createdAt <= bound
    requires forall k :: 0 <= k < |s| ==> s[k].createdAt <= bound
    ensures forall k :: 0 <= k < |Insert(p, s)| ==> Insert(p, s)[k].createdAt <= bound
  {
    if s != [] && p.createdAt < s[0].createdAt {
      InsertBelow(p, s[1..], bound);
    }
  }

  lemma {:induction false} InsertKeepsOrder(p: Post, s: seq<Post>)
    requires IsNewestFirst(s)
    ensures IsNewestFirst(Insert(p, s))
  {
    if s != [] && p.createdAt < s[0].createdAt {
      InsertKeepsOrder(p, s[1..]);
      InsertBelow(p, s[1..], s[0].createdAt);
      var r := Insert(p, s[1..]);
      var out := [s[0]] + r;
      assert Insert(p, s) == out;
      forall i, j | 0 <= i < j < |out| ensures out[i].createdAt >= out[j].createdAt {
        if i == 0 { assert out[j] == r[j - 1]; }
        else { assert out[i] == r[i - 1] && out[j] == r[j - 1]; }
      }
    }
  }

  /** The sorted list is ordered newest first and holds the same posts. */
  lemma {:induction false} NewestFirstSorted(s: seq<Post>)
    ensures IsNewestFirst(NewestFirst(s))
    ensures multiset(NewestFirst(s)) == multiset(s)
  {
    if s != [] {
      NewestFirstSorted(s[1..]);
      InsertKeepsOrder(s[0], NewestFirst(s[1..]));
    }
  }

  /** The `blogs` array and `pagination` object of a list reply. */
  datatype Listing = Listing(blogs: seq<Post>, pagination: Meta)

  /** `GET /` with filter `PublishedOnly` and `GET /user/my-blogs` with
      `ByAuthor(caller)`: parse `page` and `limit`, fetch the matching posts
      newest first from position `(page-1)*limit`, count every matching post.
      A negative skip makes the query fail with a 500. */
  function ListReply(posts: map<PostId, Post>, nextId: nat, f: Filter,
                     pageRaw: Option<string>, limitRaw: Option<string>): Reply<Listing>
  {
    var page := QueryNumber(pageRaw, DefaultPage);
    var limit := QueryNumber(limitRaw, DefaultLimit);
    var skip := Skip(page, limit);
    if skip < 0 then ServerError(if f.PublishedOnly? then ListFailed else MyListFailed)
    else
      Ok(Listing(Window(posts, nextId, f, skip, limit),
                 MakeMeta(page, limit, |MatchingBelow(posts, f, nextId)|)))
  }

  /** A list reply fails exactly when the skip is negative; otherwise its
      pagination object is the one for the parsed page and limit. */
  lemma ListStatus(posts: map<PostId, Post>, nextId: nat, f: Filter,
                   pageRaw: Option<string>, limitRaw: Option<string>)
    ensures var page := QueryNumber(pageRaw, DefaultPage);
      var limit := QueryNumber(limitRaw, DefaultLimit);
      var r := ListReply(posts, nextId, f, pageRaw, limitRaw);
      && (r.ServerError? <==> Skip(page, limit) < 0)
      && (r.Ok? <==> Skip(page, limit) >= 0)
      && (r.Ok? ==> r.body.pagination.currentPage == page
                    && r.body.pagination.hasPrevPage == (page > 1)
                    && r.body.pagination.totalPages == CeilDiv(r.body.pagination.totalBlogs, limit))
  {
  }

  /** The posts a list query returns for a non-negative skip. */
  function Window(posts: map<PostId, Post>, nextId: nat, f: Filter, skip: nat, limit: int): seq<Post>
    requires limit != 0
  {
    CursorWindow(NewestFirst(MatchingBelow(posts, f, nextId)), skip, limit)
  }

  lemma WindowSound(posts: map<PostId, Post>, nextId: nat, f: Filter, skip: nat, limit: int)
    requires limit != 0 && IdsBelow(posts, nextId)
    ensures forall p :: p in Window(posts, nextId, f, skip, limit) ==>
      p.id in posts && posts[p.id] == p && Matches(f, p)
  {
    var matching := MatchingBelow(posts, f, nextId);
    MatchingBelowSound(posts, f, nextId);
    var sorted := NewestFirst(matching);
    var w := CursorWindow(sorted, skip, limit);
    forall p | p in w ensures p.id in posts && posts[p.id] == p && Matches(f, p) {
      var i :| 0 <= i < |w| && w[i] == p;
      assert p == sorted[skip + i];
      assert p in multiset(sorted);
      assert p in multiset(matching);
    }
  }

  lemma WindowOrdered(posts: map<PostId, Post>, nextId: nat, f: Filter, skip: nat, limit: int)
    requires limit != 0
    ensures IsNewestFirst(Window(posts, nextId, f, skip, limit))
  {
    var sorted := NewestFirst(MatchingBelow(posts, f, nextId));
    NewestFirstSorted(MatchingBelow(posts, f, nextId));
    var w := CursorWindow(sorted, skip, limit);
    forall i, j | 0 <= i < j < |w| ensures w[i].createdAt >= w[j].createdAt {
      assert w[i] == sorted[skip + i] && w[j] == sorted[skip + j];
    }
  }

  /** Every listed post is a stored post that matches the filter, the list is
      ordered newest first, holds at most |limit| posts, and `totalBlogs`
      counts every stored post that matches. */
  lemma ListContents(posts: map<PostId, Post>, nextId: nat, f: Filter,
                     pageRaw: Option<string>, limitRaw: Option<string>)
    requires IdsBelow(posts, nextId)
    ensures var limit := QueryNumber(limitRaw, DefaultLimit);
      var r := ListReply(posts, nextId, f, pageRaw, limitRaw);
      r.Ok? ==>
        && (forall p :: p in r.body.blogs ==> p.id in posts && posts[p.id] == p && Matches(f, p))
        && IsNewestFirst(r.body.blogs)
        && |r.body.blogs| <= Abs(limit)
        && r.body.pagination.totalBlogs == |set id | id in posts && Matches(f, posts[id])|
  {
    var page := QueryNumber(pageRaw, DefaultPage);
    var limit := QueryNumber(limitRaw, DefaultLimit);
    var skip := Skip(page, limit);
    if skip >= 0 {
      var matching := MatchingBelow(posts, f, nextId);
      var w := Window(posts, nextId, f, skip, limit);
      assert ListReply(posts, nextId, f, pageRaw, limitRaw)
          == Ok(Listing(w, MakeMeta(page, limit, |matching|)));
      WindowSound(posts, nextId, f, skip, limit);
      WindowOrdered(posts, nextId, f, skip, limit);
      MatchingBelowCount(posts, f, nextId);
      assert MatchingIds(posts, f, nextId) == set id | id in posts && Matches(f, posts[id]);
    }
  }

  /** A successful list reply is exactly the requested page of the matching
      posts in newest-first order: it starts `(page - 1) * limit` places in
      and holds `limit` posts, or fewer when the matching posts run out. */
  lemma ListPage(posts: map<PostId, Post>, nextId: nat, f: Filter,
                 pageRaw: Option<string>, limitRaw: Option<string>)
    ensures var limit := QueryNumber(limitRaw, DefaultLimit);
      var skip := Skip(QueryNumber(pageRaw, DefaultPage), limit);
      var sorted := NewestFirst(MatchingBelow(posts, f, nextId));
      var r := ListReply(posts, nextId, f, pageRaw, limitRaw);
      r.Ok? ==>
        PageOf(r.body.blogs, sorted, skip, limit)
  {
    var page := QueryNumber(pageRaw, DefaultPage);
    var limit := QueryNumber(limitRaw, DefaultLimit);
    var skip := Skip(page, limit);
    var r := ListReply(posts, nextId, f, pageRaw, limitRaw);
    if r.Ok? {
      assert skip >= 0;
      var sorted := NewestFirst(MatchingBelow(posts, f, nextId));
      assert r.body.blogs == CursorWindow(sorted, skip, limit);
      WindowIsPage(sorted, r.body.blogs, skip, limit);
    }
  }

  /** A cursor window is the page it was asked for. */
  lemma WindowIsPage(sorted: seq<Post>, w: seq<Post>, skip: int, limit: int)
    requires skip >= 0 && limit != 0 && w == CursorWindow(sorted, skip, limit)
    ensures PageOf(w, sorted, skip, limit)
  {
  }

  /** The list of the caller's own posts counts and may show their unpublished
      posts; the public list never shows one. */
  lemma OwnListShowsDrafts(posts: map<PostId, Post>, nextId: nat, caller: UserId, id: PostId)
    requires IdsBelow(posts, nextId)
    requires id in posts && posts[id].author == caller && !posts[id].published
    ensures posts[id] in MatchingBelow(posts, ByAuthor(caller), nextId)
    ensures posts[id] !in MatchingBelow(posts, PublishedOnly, nextId)
  {
    MatchingBelowComplete(posts, ByAuthor(caller), nextId);
    MatchingBelowSound(posts, PublishedOnly, nextId);
    assert id in MatchingIds(posts, ByAuthor(caller), nextId);
  }

  // --------------------------------------------------------------- writing

  /** What the store keeps true of its documents: ids match their keys and lie
      below the next id, every post passes the schema, slugs are unique. */
  ghost predicate StoreOk(posts: map<PostId, Post>, nextId: nat)
  {
    && IdsBelow(posts, nextId)
    && (forall id :: id in posts ==> SchemaOk(posts[id]))
    && SlugsUnique(posts)
  }

  lemma AddKeepsStoreOk(posts: map<PostId, Post>, nextId: nat, p: Post)
    requires StoreOk(posts, nextId)
    requires p.id == nextId && SchemaOk(p) && !SlugTaken(posts, p.slug)
    ensures StoreOk(posts[nextId := p], nextId + 1)
  {
  }

  lemma ReplaceKeepsStoreOk(posts: map<PostId, Post>, nextId: nat, id: PostId, p: Post)
    requires StoreOk(posts, nextId)
    requires id in posts && p.id == id && SchemaOk(p) && !SlugTaken(posts - {id}, p.slug)
    ensures StoreOk(posts[id := p], nextId)
  {
    var m := posts[id := p];
    forall a, b | a in m && b in m && a != b ensures m[a].slug != m[b].slug {
      if a == id { assert b in posts - {id}; }
      else if b == id { assert a in posts - {id}; }
    }
  }

  lemma RemoveKeepsStoreOk(posts: map<PostId, Post>, nextId: nat, id: PostId)
    requires StoreOk(posts, nextId)
    ensures StoreOk(posts - {id}, nextId)
  {
  }

  /** The stored posts, with the schema's guarantees kept as an invariant. */
  class BlogStore {
    var posts: map<PostId, Post>
    var nextId: PostId

    ghost predicate Valid()
      reads this
    {
      StoreOk(posts, nextId)
    }

    constructor ()
      ensures Valid() && posts == map[] && nextId == 0
    {
      posts := map[];
      nextId := 0;
    }

    /** `POST /`: 400 with the validation errors and nothing stored, or a new
        published post by the caller under the next id; a slug that another
        post already has makes the save fail with a 500. */
    method Create(caller: UserId, title: string, content: string, now: nat)
      returns (reply: Reply<Post>)
      requires Valid()
      modifies this
      ensures Valid()
      ensures !ServerAccepts(title, content) ==>
        reply == BadRequest(ServerValidate(title, content))
        && posts == old(posts) && nextId == old(nextId)
      ensures ServerAccepts(title, content) ==>
        var p := NewPost(old(nextId), Trim(title), Trim(content), caller, now);
        if SlugTaken(old(posts), p.slug) then
          reply == ServerError(CreateFailed) && posts == old(posts) && nextId == old(nextId)
        else
          && reply.Created? && reply.body == p
          && posts == old(posts)[old(nextId) := reply.body]
          && nextId == old(nextId) + 1
    {
      var errors := ServerValidate(title, content);
      if errors != [] {
        return BadRequest(errors);
      }
      var blog := NewPost(nextId, Trim(title), Trim(content), caller, now);
      if SlugTaken(posts, blog.slug) {
        return ServerError(CreateFailed);
      }
      NewPostSchema(nextId, Trim(title), Trim(content), caller, now);
      TrimIdempotent(title);
      AddKeepsStoreOk(posts, nextId, blog);
      posts := posts[nextId := blog];
      nextId := nextId + 1;
      reply := Created(blog);
    }

    /** `PUT /:id`: validation (400), then existence (404), then ownership
        (403); only then are the new title and content saved. A slug that
        another post already has makes the save fail with a 500. Whether the
        post is published is not checked. */
    method Update(caller: UserId, rawId: Option<PostId>, title: string, content: string, now: nat)
      returns (reply: Reply<Post>)
      requires Valid()
      modifies this
      ensures Valid()
      ensures nextId == old(nextId)
      ensures !ServerAccepts(title, content) ==>
        reply == BadRequest(ServerValidate(title, content)) && posts == old(posts)
      ensures ServerAccepts(title, content) && (rawId.None? || rawId.value !in old(posts)) ==>
        reply == NotFound && posts == old(posts)
      ensures ServerAccepts(title, content) && rawId.Some? && rawId.value in old(posts)
              && old(posts)[rawId.value].author != caller ==>
        reply == Forbidden(EditDenied) && posts == old(posts)
      ensures ServerAccepts(title, content) && rawId.Some? && rawId.value in old(posts)
              && old(posts)[rawId.value].author == caller ==>
        var id := rawId.value;
        var q := Edited(old(posts)[id], Trim(title), Trim(content), now);
        if SlugTaken(old(posts) - {id}, q.slug) then
          reply == ServerError(UpdateFailed) && posts == old(posts)
        else
          reply.Ok? && reply.body == q && posts == old(posts)[id := reply.body]
    {
      var errors := ServerValidate(title, content);
      if errors != [] {
        return BadRequest(errors);
      }
      if rawId.None? || rawId.value !in posts {
        return NotFound;
      }
      var id := rawId.value;
      var blog := posts[id];
      if blog.author != caller {
        return Forbidden(EditDenied);
      }
      var saved := Edited(blog, Trim(title), Trim(content), now);
      EditedFields(blog, Trim(title), Trim(content), now);
      EditedSchema(blog, Trim(title), Trim(content), now);
      TrimIdempotent(title);
      if SlugTaken(posts - {id}, saved.slug) {
        return ServerError(UpdateFailed);
      }
      ReplaceKeepsStoreOk(posts, nextId, id, saved);
      posts := posts[id := saved];
      reply := Ok(saved);
    }

    /** `DELETE /:id`: 404 for an unknown id, 403 for a post of another
        author, removing nothing in either case; otherwise exactly that post
        is removed. */
    method Delete(caller: UserId, rawId: Option<PostId>) returns (reply: Reply<()>)
      requires Valid()
      modifies this
      ensures Valid()
      ensures nextId == old(nextId)
      ensures rawId.None? || rawId.value !in old(posts) ==>
        reply == NotFound && posts == old(posts)
      ensures rawId.Some? && rawId.value in old(posts) && old(posts)[rawId.value].author != caller ==>
        reply == Forbidden(DeleteDenied) && posts == old(posts)
      ensures rawId.Some? && rawId.value in old(posts) && old(posts)[rawId.value].author == caller ==>
        reply == Ok(()) && posts == old(posts) - {rawId.value}
    {
      if rawId.None? || rawId.value !in posts {
        return NotFound;
      }
      var id := rawId.value;
      if posts[id].author != caller {
        return Forbidden(DeleteDenied);
      }
      RemoveKeepsStoreOk(posts, nextId, id);
      posts := posts - {id};
      reply := Ok(());
    }
  }
}
