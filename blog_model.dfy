/**
 * A blog post as the document schema defines it: the schema's constraints,
 * the `published` default, the trim setter on `title`, the automatic
 * timestamps and the pre-save hook that derives the slug.
 */
module BlogModel {
  import opened JsText
  import Slug

  /** Document ids; the store hands them out in increasing order. */
  type PostId = nat
  /** User ids, compared as strings (`toString()` of an ObjectId). */
  type UserId = string

  const MaxTitleLength: nat := 200

  datatype Post = Post(id: PostId, title: string, content: string, author: UserId,
                       published: bool, slug: string, createdAt: nat, updatedAt: nat)

  /** The schema validators a saved document passes: `title` required and at
      most 200 characters after its trim setter, `content` required. */
  predicate SchemaOk(p: Post)
  {
    IsTrimmed(p.title) && 1 <= |p.title| <= MaxTitleLength && p.content != []
  }

  /** The pre-save hook: the slug is derived again only when `title` is
      modified. */
  function PreSave(p: Post, titleModified: bool, now: nat): Post
  {
    if titleModified then p.(slug := Slug.MakeSlug(p.title, now)) else p
  }

  /** `new Blog({ title, content, author })` saved at time `now`: the trim
      setter applies to the title, `published` takes its default, both
      timestamps are `now`, and a new document counts its title as modified. */
  function NewPost(id: PostId, title: string, content: string, author: UserId, now: nat): Post
  {
    PreSave(Post(id, Trim(title), content, author, true, [], now, now), true, now)
  }

  /** `blog.title = title; blog.content = content; blog.save()` at time `now`:
      a path counts as modified only when its value changes, and `updatedAt`
      moves only when some path was modified. */
  function Edited(p: Post, title: string, content: string, now: nat): Post
  {
    var t := Trim(title);
    var titleModified := t != p.title;
    var modified := titleModified || content != p.content;
    PreSave(p.(title := t, content := content,
               updatedAt := if modified then now else p.updatedAt),
            titleModified, now)
  }

  /** A new post is published, belongs to `author`, carries the trimmed title,
      the slug of that title at `now`, and equal timestamps. */
  lemma NewPostFields(id: PostId, title: string, content: string, author: UserId, now: nat)
    ensures var p := NewPost(id, title, content, author, now);
      && p.id == id && p.author == author && p.published
      && p.title == Trim(title) && p.content == content
      && p.slug == Slug.MakeSlug(Trim(title), now)
      && p.createdAt == now && p.updatedAt == now
  {
  }

  /** A new post passes the schema exactly when its trimmed title has 1 to 200
      characters and its content is not empty. */
  lemma NewPostSchema(id: PostId, title: string, content: string, author: UserId, now: nat)
    ensures SchemaOk(NewPost(id, title, content, author, now))
        <==> 1 <= |Trim(title)| <= MaxTitleLength && content != []
  {
    TrimIdempotent(title);
  }

  /** An edit changes only the title, the content, the slug and `updatedAt`;
      the slug is kept when the trimmed title is unchanged and derived anew
      otherwise; `updatedAt` moves exactly when something changed. */
  lemma EditedFields(p: Post, title: string, content: string, now: nat)
    ensures var q := Edited(p, title, content, now);
      && q.id == p.id && q.author == p.author && q.published == p.published
      && q.createdAt == p.createdAt
      && q.title == Trim(title) && q.content == content
      && (Trim(title) == p.title ==> q.slug == p.slug)
      && (Trim(title) != p.title ==> q.slug == Slug.MakeSlug(Trim(title), now))
      && (q.updatedAt == if Trim(title) != p.title || content != p.content then now else p.updatedAt)
  {
  }

  /** An edit that brings no new value leaves the post exactly as it was. */
  lemma EditWithoutChangeIsIdentity(p: Post, title: string, content: string, now: nat)
    requires Trim(title) == p.title && content == p.content
    ensures Edited(p, title, content, now) == p
  {
  }

  /** Saving the same values again, at any later time, changes nothing. */
  lemma EditIdempotent(p: Post, title: string, content: string, now: nat, later: nat)
    ensures var q := Edited(p, title, content, now);
      Edited(q, title, content, later) == q
  {
    EditedFields(p, title, content, now);
  }

  /** An edit keeps the schema valid exactly when its trimmed title has 1 to
      200 characters and its content is not empty. */
  lemma EditedSchema(p: Post, title: string, content: string, now: nat)
    ensures SchemaOk(Edited(p, title, content, now))
        <==> 1 <= |Trim(title)| <= MaxTitleLength && content != []
  {
    var q := Edited(p, title, content, now);
    EditedFields(p, title, content, now);
    TrimIdempotent(title);
    TrimmedIff(Trim(title));
    assert q.title == Trim(title) && q.content == content;
  }
}
