/**
 * Query parsing and pagination arithmetic shared by the two list routes,
 * `GET /api/blogs` and `GET /api/blogs/user/my-blogs`, and the pagination
 * object they return.
 */
module Pagination {
  import opened Options
  import JsText

  const DefaultPage: int := 1
  const DefaultLimit: int := 10

  /** `parseInt(x) || fallback`: only the falsy results of `parseInt`, NaN
      and 0, fall back; every other value, negative ones included, is kept. */
  function OrDefault(parsed: Option<int>, fallback: int): (v: int)
    ensures parsed == None || parsed == Some(0) ==> v == fallback
    ensures parsed.Some? && parsed.value != 0 ==> v == parsed.value
    ensures fallback != 0 ==> v != 0
  {
    match parsed
    case None => fallback
    case Some(n) => if n == 0 then fallback else n
  }

  /** A query parameter as the routes read it: `parseInt(req.query.x) || fallback`,
      where a missing parameter parses as NaN. */
  function QueryNumber(raw: Option<string>, fallback: int): (v: int)
    ensures fallback != 0 ==> v != 0
    ensures raw == None ==> v == fallback
  {
    OrDefault(if raw.None? then None else JsText.ParseInt(raw.value), fallback)
  }

  /** The number of documents skipped before the requested page. */
  function Skip(page: int, limit: int): int
  {
    (page - 1) * limit
  }

  /** `Math.ceil(a / b)` on integers: the least integer not below a/b. */
  function CeilDiv(a: int, b: int): (q: int)
    requires b != 0
    ensures b > 0 ==> (q - 1) * b < a <= q * b
    ensures b < 0 ==> q * b <= a < (q - 1) * b
  {
    if b > 0 then -((-a) / b) else -(a / (-b))
  }

  /** The `pagination` object of a list response. */
  datatype Meta = Meta(currentPage: int, totalPages: int, totalBlogs: int,
                       hasNextPage: bool, hasPrevPage: bool)

  function MakeMeta(page: int, limit: int, total: nat): (m: Meta)
    requires limit != 0
    ensures m.currentPage == page && m.totalBlogs == total
    ensures m.totalPages == CeilDiv(total, limit)
    ensures m.hasNextPage <==> page < m.totalPages
    ensures m.hasPrevPage <==> page > 1
  {
    var totalPages := CeilDiv(total, limit);
    Meta(page, totalPages, total, page < totalPages, page > 1)
  }

  /** An empty collection has no pages, and a page from 1 on has no next page. */
  lemma EmptyMeta(page: int, limit: int)
    requires limit != 0
    ensures MakeMeta(page, limit, 0).totalPages == 0
    ensures page >= 1 ==> !MakeMeta(page, limit, 0).hasNextPage
  {
  }

  /** Below the page count exactly when the pages up to `p` do not yet hold
      every document. */
  lemma BelowPageCount(p: int, limit: int, total: nat)
    requires limit > 0
    ensures p < CeilDiv(total, limit) <==> p * limit < total
  {
    var q := CeilDiv(total, limit);
    if p < q {
      MulMonotone(p, q - 1, limit);
    } else {
      MulMonotone(q, p, limit);
    }
  }

  lemma {:induction false} MulMonotone(a: int, b: int, c: nat)
    requires a <= b
    ensures a * c <= b * c
  {
    if c > 0 {
      MulMonotone(a, b, c - 1);
      assert a * c == a * (c - 1) + a && b * c == b * (c - 1) + b;
    }
  }

  /** With a positive limit, `hasNextPage` holds exactly when documents remain
      after the requested page. */
  lemma NextPageMeansMore(page: int, limit: int, total: nat)
    requires limit > 0
    ensures MakeMeta(page, limit, total).hasNextPage <==> Skip(page, limit) + limit < total
  {
    BelowPageCount(page, limit, total);
    assert Skip(page, limit) + limit == page * limit;
  }

  /** With a positive limit, a page from 1 on is within the page count exactly
      when its first document exists. */
  lemma PageWithinCount(page: int, limit: int, total: nat)
    requires limit > 0 && page >= 1
    ensures page <= MakeMeta(page, limit, total).totalPages <==> Skip(page, limit) < total
  {
    BelowPageCount(page - 1, limit, total);
  }

  function Abs(n: int): nat
  {
    if n < 0 then -n else n
  }

  function Min(a: int, b: int): int
  {
    if a <= b then a else b
  }

  /** `w` is the stretch of `s` that starts at position `start`. */
  ghost predicate RunAt<T>(w: seq<T>, s: seq<T>, start: int)
  {
    0 <= start && forall i :: 0 <= i < |w| ==> start + i < |s| && w[i] == s[start + i]
  }

  /** `w` is the page of `s` that skips `skip` items and holds `|limit|`
      of them, or fewer when `s` runs out. */
  ghost predicate PageOf<T>(w: seq<T>, s: seq<T>, skip: int, limit: int)
  {
    |w| == Min(Abs(limit), |s| - Min(skip, |s|)) && RunAt(w, s, skip)
  }

  /** `.skip(skip).limit(limit)` on a cursor over `s`: a non-negative skip
      drops that many documents; a negative limit returns at most its
      absolute value in a single batch, as a positive one does. */
  function CursorWindow<T>(s: seq<T>, skip: nat, limit: int): (w: seq<T>)
    requires limit != 0
    ensures |w| == Min(Abs(limit), |s| - Min(skip, |s|))
    ensures forall i :: 0 <= i < |w| ==> w[i] == s[skip + i]
  {
    var lo := Min(skip, |s|);
    var hi := Min(lo + Abs(limit), |s|);
    s[lo..hi]
  }
}
