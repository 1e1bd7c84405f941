# Blog application core, modelled in Dafny

This project models the core of a small blogging application made of two parts.

The Express back end covers:
- the `Blog` document with its schema limits and its pre-save hook, which derives a slug from the title and refreshes the timestamps;
- the blog routes:
  - the public paginated list of published posts, newest first;
  - reading one post, where a missing, malformed or unpublished id gives 404;
  - creating a post (validation, then 400 or 201);
  - updating a post (validation, 404, ownership check 403, save);
  - deleting a post (404, 403, delete);
  - listing the caller's own posts, drafts included.

The React front end covers:
- the create and edit forms: client-side validation, clearing a field's error on edit, mapping server validation errors onto fields, the "has changes" test, and the confirm-before-cancel rule;
- the sign-up form with its e-mail pattern;
- the detail page: author check, paragraph split, "Updated" note, load-error messages;
- the two list pages: page requested from the URL, the windowed and full pagination rows, previews, and the local update after a delete;
- the theme provider.

Modules:
- `JsText`: the JavaScript string built-ins the code relies on: `trim`, `toLowerCase`, `split`, `String(n)`, `parseInt`.
- `Slug`: the slug pipeline.
- `Pagination`: page, limit and skip, and the pagination object.
- `BlogModel`: the document.
- `BlogRoutes`: the routes, with the post store as a class whose methods are the state-changing routes.
- `FormErrors`, `BlogForm`: the shared form logic.
- Page modules: `CreateBlogPage`, `EditBlogPage`, `SignupPage`, `BlogDetailPage`, `BlogListPage`, `MyBlogsPage`, `PageButtons`.
- `Theme`: the theme provider.

Components whose state the source updates (the store, each form, the own-list page, the theme provider) are classes. Their handlers are methods that state the whole new state. The rest are functions with lemmas.

Inputs:
- The clock (`Date.now()`) is a parameter `now`.
- The authenticated caller is a parameter `caller`.
- An id that does not parse as an object id is `None`.
- The outcome of a network request is a parameter.

## Model

| member | source | states |
|---|---|---|
| JsText.TrimShape | backend/routes/blogs.js:73-74 | `trim` leaves no white space at either end and returns a contiguous piece of its input |
| JsText.TrimEmptyIff | frontend/src/pages/CreateBlog.js:31-41 | a string trims to empty exactly when it is all white space |
| JsText.TrimmedIff | backend/models/Blog.js:4-9 | trimming leaves a string unchanged exactly when it has no white space at either end |
| JsText.TrimIdempotent | backend/routes/blogs.js:73-74 | trimming twice is trimming once |
| JsText.ToLower | backend/models/Blog.js:35 | lower-casing keeps the length, maps each ASCII capital to its small letter, 32 code points up, leaves every other character, and leaves no ASCII capital |
| JsText.SplitPieces | frontend/src/pages/BlogDetail.js:68-74 | splitting on a character gives one more piece than there are occurrences, and no piece holds the separator |
| JsText.JoinSplit | frontend/src/pages/BlogDetail.js:68-74 | joining the pieces with the separator gives the string back |
| JsText.DecimalRoundTrip | backend/models/Blog.js:39 | the decimal numeral of a number is non-empty, all digits, and reads back as that number |
| JsText.ToDecimalInjective | backend/models/Blog.js:39 | distinct numbers have distinct numerals |
| JsText.ParseIntPrefix | backend/routes/blogs.js:13-14 | `parseInt` of a numeral followed by anything reads the number back |
| JsText.ParseIntNegativePrefix | backend/routes/blogs.js:13-14 | `parseInt` of `-` and a numeral reads the negated number |
| Slug.StripShape | backend/models/Blog.js:36 | every character left is in `[a-z0-9 -]`, and every such character of the input is still there |
| Slug.StripAppend | backend/models/Blog.js:36 | stripping works character by character: it distributes over concatenation |
| Slug.StripOne | backend/models/Blog.js:36 | a single character is kept exactly when it is in `[a-z0-9 -]` |
| Slug.StripKeepsKept | backend/models/Blog.js:36 | a string of allowed characters is left as it is |
| Slug.HyphenateShape | backend/models/Blog.js:37 | no white space is left, and every other character comes from the input |
| Slug.HyphenateRun | backend/models/Blog.js:37 | a maximal run of white space becomes exactly one hyphen |
| Slug.HyphenateKeepsFirst | backend/models/Blog.js:37 | a character other than white space is kept in place |
| Slug.HyphenateKeepsPlain | backend/models/Blog.js:37 | a string without white space is left as it is |
| Slug.CollapseShape | backend/models/Blog.js:38 | empty iff the input is, same first character, characters drawn from the input, no double hyphen |
| Slug.CollapseRun | backend/models/Blog.js:38 | a maximal run of hyphens becomes exactly one hyphen |
| Slug.CollapseKeepsFirst | backend/models/Blog.js:38 | a character other than a hyphen is kept in place |
| Slug.CollapseKeepsPlain | backend/models/Blog.js:38 | a string without hyphens is left as it is |
| Slug.ReplacedShape | backend/models/Blog.js:35-38 | after the three replacements only `[a-z0-9-]` remain, with no double hyphen |
| Slug.TrimCallIsNoOp | backend/models/Blog.js:39 | the `.trim('-')` call removes nothing, because it trims white space and none is left |
| Slug.SlugBodyShape | backend/models/Blog.js:34-39 | the slug before the time suffix has only `[a-z0-9-]`, no double hyphen and no white space |
| Slug.LeadingHyphenSurvives | backend/models/Blog.js:34-39 | every title whose first character is `-` gives a slug body that starts with `-` |
| Slug.DistinctTimesDistinctSlugs | backend/models/Blog.js:34-39 | the same title at two different times gives two different slugs |
| Pagination.OrDefault | backend/routes/blogs.js:13-14 | `x \|\| d`: a missing value or 0 falls back to the default, anything else is kept |
| Pagination.QueryNumber | backend/routes/blogs.js:13-14 | a query number is never 0 and is the default when the parameter is absent |
| Pagination.CeilDiv | backend/routes/blogs.js:24 | `Math.ceil(a / b)` lies within one of the exact quotient, for either sign of the divisor |
| Pagination.EmptyMeta | backend/routes/blogs.js:23-33 | with no posts there are 0 pages and no next page |
| Pagination.BelowPageCount | backend/routes/blogs.js:15-32 | with a positive limit, page p < totalPages exactly when posts exist past page p |
| Pagination.NextPageMeansMore | backend/routes/blogs.js:15-32 | `hasNextPage` implies more posts than the ones up to the end of this page |
| Pagination.PageWithinCount | backend/routes/blogs.js:15-24 | a page within the page count starts before the end of the posts |
| Pagination.CursorWindow | backend/routes/blogs.js:20-21 | `skip`/`limit` give the posts from position `skip` on, exactly `min(|limit|, what remains)` of them, in order |
| BlogModel.NewPostFields | backend/routes/blogs.js:84-90 | a saved new post is published, holds the trimmed title, the content, the author, the slug of its title, and equal creation and update times |
| BlogModel.NewPostSchema | backend/models/Blog.js:4-13 | a new post passes the schema exactly when its trimmed title is 1-200 characters and its content is non-empty |
| BlogModel.EditedFields | backend/routes/blogs.js:130-133 | an edited post gets the new trimmed fields, a new slug only when the title changed, and a new update time only when something changed |
| BlogModel.EditWithoutChangeIsIdentity | backend/models/Blog.js:28-40 | saving the same title and content leaves the post unchanged |
| BlogModel.EditIdempotent | backend/models/Blog.js:32-40 | applying the same edit again later changes nothing |
| BlogModel.EditedSchema | backend/models/Blog.js:4-13 | an edited post passes the schema exactly when its trimmed title is 1-200 characters and its content is non-empty |
| BlogRoutes.ServerValidate | backend/routes/blogs.js:73-80 | no errors iff the request is accepted; a title error iff the trimmed title is not 1-200 characters; a content error iff the trimmed content is empty |
| BlogRoutes.ReadableIffListed | backend/routes/blogs.js:45-58 | a post can be read by id exactly when the public list would show it |
| BlogRoutes.MatchingBelowSound | backend/routes/blogs.js:17 | the query returns only stored posts that match the filter |
| BlogRoutes.MatchingBelowComplete | backend/routes/blogs.js:17 | every stored post that matches the filter is returned |
| BlogRoutes.MatchingBelowCount | backend/routes/blogs.js:23 | the count is the number of matching stored posts |
| BlogRoutes.Insert | backend/routes/blogs.js:19 | inserting one post keeps every post, as a multiset |
| BlogRoutes.NewestFirst | backend/routes/blogs.js:19 | sorting by creation time is a permutation |
| BlogRoutes.InsertKeepsOrder | backend/routes/blogs.js:19 | inserting into a newest-first list keeps it newest first |
| BlogRoutes.NewestFirstSorted | backend/routes/blogs.js:19 | the sorted list is newest first |
| BlogRoutes.ListStatus | backend/routes/blogs.js:11-39 | a list request fails with 500 exactly when the parsed page and limit give a negative skip; otherwise its pagination object has the parsed page, a previous page iff page > 1, and `ceil(total / limit)` pages |
| BlogRoutes.WindowSound | backend/routes/blogs.js:17-21 | every listed post is a stored post that matches the filter |
| BlogRoutes.WindowOrdered | backend/routes/blogs.js:17-21 | the listed posts are newest first |
| BlogRoutes.ListContents | backend/routes/blogs.js:11-35 | a successful list holds only stored posts matching its filter (published, or the caller's own), newest first, at most \|limit\| of them, and `totalBlogs` counts exactly the matching stored posts |
| BlogRoutes.ListPage | backend/routes/blogs.js:15-21 | a successful list is exactly the requested page: the matching posts in newest-first order from position `(page - 1) * limit` on, `min(|limit|, what remains)` of them |
| BlogRoutes.OwnListShowsDrafts | backend/routes/blogs.js:180-192 | the caller's own list counts their unpublished posts too |
| BlogRoutes.AddKeepsStoreOk | backend/models/Blog.js:23-26 | adding a post whose slug is not taken keeps slugs unique and ids below the next id |
| BlogRoutes.ReplaceKeepsStoreOk | backend/models/Blog.js:23-26 | replacing a post by one whose slug no other post holds keeps the store consistent |
| BlogRoutes.RemoveKeepsStoreOk | backend/routes/blogs.js:165 | deleting keeps the store consistent |
| BlogRoutes.BlogStore.Create | backend/routes/blogs.js:71-101 | invalid input gives 400 with the errors; a slug clash gives 500; otherwise 201 with the new post stored under a fresh id and nothing else changed |
| BlogRoutes.BlogStore.Update | backend/routes/blogs.js:106-147 | 400, then 404, then 403 for a non-owner, then 500 on a slug clash; otherwise 200 with the edited post in place, other posts unchanged |
| BlogRoutes.BlogStore.Delete | backend/routes/blogs.js:152-175 | 404 for a missing post, 403 for a non-owner; otherwise the post is removed and nothing else changes |
| FormErrors.ServerErrorsToMap | frontend/src/pages/CreateBlog.js:71-75 | the loop builds the map of the error list |
| FormErrors.ErrorsMapKeys | frontend/src/pages/CreateBlog.js:71-74 | the map's keys are exactly the keys of the errors |
| FormErrors.ErrorsMapLastWins | frontend/src/pages/CreateBlog.js:71-74 | each key holds the message of the last error with that key |
| FormErrors.MessageOr | frontend/src/pages/CreateBlog.js:76-77 | the server's message when it is present and non-empty; an absent or empty message gives the fallback |
| FormErrors.FailureErrors | frontend/src/pages/CreateBlog.js:69-78 | a failure with an error list maps it onto fields; otherwise only `general` holds the message or fallback |
| FormErrors.ClearedOnEdit | frontend/src/pages/CreateBlog.js:20-25 | editing a field blanks that field's error, keeps its key, and leaves the other errors as they were |
| BlogForm.ValidationErrors | frontend/src/pages/CreateBlog.js:28-44 | no errors iff the form is acceptable; the title error iff the trimmed title is empty or over 200, with the matching message; the content error iff the trimmed content is under 10, with the matching message |
| BlogForm.ValidateForm | frontend/src/pages/EditBlog.js:66-82 | builds exactly those errors |
| BlogForm.PayloadAccepted | frontend/src/pages/CreateBlog.js:59-62 | a payload that passed the client checks passes the server's checks and is left alone by the server's trimming |
| BlogForm.AsApiErrors | backend/routes/blogs.js:79 | each server error is sent with its field name and message |
| BlogForm.ServerErrorsLandOnFields | frontend/src/pages/CreateBlog.js:69-75 | a server rejection shows a non-empty map whose title and content entries appear exactly for the failed fields |
| CreateBlogPage.CreateBlog.constructor | frontend/src/pages/CreateBlog.js:6-10 | the form starts empty, with no errors |
| CreateBlogPage.CreateBlog.HandleChange | frontend/src/pages/CreateBlog.js:14-26 | only the edited field changes, and its error is cleared |
| CreateBlogPage.CreateBlog.HandleSubmit | frontend/src/pages/CreateBlog.js:46-62 | an invalid form shows its errors and sends nothing; a valid one sends the trimmed fields with errors cleared |
| CreateBlogPage.CreateBlog.OnCreateFailed | frontend/src/pages/CreateBlog.js:66-79 | the failure's errors replace the form's errors |
| CreateBlogPage.CreateBlog.CancelAsksConfirm | frontend/src/pages/CreateBlog.js:84-92 | cancelling asks first iff some field holds a character other than white space |
| CreateBlogPage.AcceptedFormAsksBeforeCancel | frontend/src/pages/CreateBlog.js:84-92 | a form that would be submitted always asks before cancelling |
| EditBlogPage.LoadNeverSaysOwnOnly | frontend/src/pages/EditBlog.js:33-41 | no load through the public read route shows the ownership message, because that route never answers 403 |
| EditBlogPage.RejectedUpdateShowsFieldErrors | frontend/src/pages/EditBlog.js:113-124 | a 400 from the update route shows a non-empty map whose title and content entries appear exactly for the failed fields |
| EditBlogPage.EditBlog.constructor | frontend/src/pages/EditBlog.js:8-15 | the form starts empty with no original |
| EditBlogPage.EditBlog.OnLoaded | frontend/src/pages/EditBlog.js:22-32 | after loading the form holds the post's fields and has no changes |
| EditBlogPage.EditBlog.OnLoadFailed | frontend/src/pages/EditBlog.js:33-41 | a failed load shows the message for its status |
| EditBlogPage.EditBlog.HandleChange | frontend/src/pages/EditBlog.js:52-64 | only the edited field changes, and its error is cleared |
| EditBlogPage.EditBlog.HandleSubmit | frontend/src/pages/EditBlog.js:88-109 | an invalid form shows errors; an unchanged one only navigates; otherwise it sends the trimmed fields; so a valid form is sent exactly when cancelling it would ask first |
| EditBlogPage.EditBlog.OnUpdateFailed | frontend/src/pages/EditBlog.js:113-127 | the failure's errors replace the form's errors |
| EditBlogPage.EditBlog.CancelAsksConfirm | frontend/src/pages/EditBlog.js:133-141 | cancelling asks first always before a successful load, and afterwards iff the title or content differs from the loaded value |
| EditBlogPage.SilentCancelLosesNothing | frontend/src/pages/EditBlog.js:133-141 | when a loaded form cancels without asking, sending it instead would leave the stored post exactly as it is |
| EditBlogPage.LoadOfHiddenPostSaysNotFound | frontend/src/pages/EditBlog.js:35-36 | loading a missing or unpublished post through the public read route says "Blog not found." |
| EditBlogPage.ForbiddenUpdateShowsOwnMessage | frontend/src/pages/EditBlog.js:116-117 | the route's 403 shows "You can only edit your own blogs." |
| EditBlogPage.WhiteSpaceOnlyEditKeepsPost | frontend/src/pages/EditBlog.js:84-109 | an edit that differs from the post only in surrounding white space leaves the stored post unchanged |
| SignupPage.SignupErrors | frontend/src/pages/Signup.js:31-55 | no errors iff the form is acceptable; each field's error appears iff its check fails, with the matching message |
| SignupPage.ValidateForm | frontend/src/pages/Signup.js:31-55 | builds exactly those errors |
| SignupPage.EmailShapeAccepted | frontend/src/pages/Signup.js:40 | `local@host.tld` with non-blank parts passes the e-mail test |
| SignupPage.NoAtRejected | frontend/src/pages/Signup.js:40 | an address without `@` fails it |
| SignupPage.EmailPatternUnanchored | frontend/src/pages/Signup.js:40 | text around a passing address still passes, because the pattern is not anchored |
| SignupPage.PaddedEmailAccepted | frontend/src/pages/Signup.js:38-42 | a form that passes validation still passes with spaces around its e-mail |
| SignupPage.Signup.constructor | frontend/src/pages/Signup.js:6-13 | the form starts empty, with no errors |
| SignupPage.Signup.HandleChange | frontend/src/pages/Signup.js:17-29 | only the edited field changes, and its error is cleared |
| SignupPage.Signup.HandleSubmit | frontend/src/pages/Signup.js:57-72 | an invalid form shows errors; a valid one sends name, e-mail and password as typed |
| SignupPage.Signup.OnSignupFailed | frontend/src/pages/Signup.js:73-83 | the failure's errors replace the form's errors |
| BlogDetailPage.AuthorActionsMatchOwnership | frontend/src/pages/BlogDetail.js:160-178 | the actions show exactly when the routes' ownership check would pass |
| BlogDetailPage.AbsentIdsCountAsAuthor | frontend/src/pages/BlogDetail.js:112 | two absent ids compare equal |
| BlogDetailPage.AuthorName | frontend/src/pages/BlogDetail.js:147 | the author's name when the post carries a non-empty one, otherwise `Anonymous` |
| BlogDetailPage.ParagraphsOfContent | frontend/src/pages/BlogDetail.js:68-74 | one paragraph per line: newline count plus one, none holds a newline, and they join back to the content |
| BlogDetailPage.NewPostNotUpdated | frontend/src/pages/BlogDetail.js:152-156 | a new post shows no "Updated" note |
| BlogDetailPage.FirstEditShowsUpdated | frontend/src/pages/BlogDetail.js:152-156 | after one edit the note shows iff the edit changed something at a later time |
| BlogDetailPage.LoadOutcome | frontend/src/pages/BlogDetail.js:19-29 | a published post loads; a missing, malformed or unpublished one says "Blog not found." |
| PageButtons.ButtonsCounts | frontend/src/pages/MyBlogs.js:99-110 | the page loop shows `lo..hi` in order with no ellipsis, and one active button iff the current page is among them |
| PageButtons.PushButtons | frontend/src/pages/BlogList.js:90-100 | the loop appends exactly those buttons |
| PageButtons.Truncate | frontend/src/pages/BlogList.js:39-42 | short content is kept; long content becomes its first `max` characters plus `...`, so a preview has at most `max + 3` characters (the list page uses 200, the own-list page 150) |
| PageButtons.TruncateIdempotent | frontend/src/pages/BlogList.js:39-42 | shortening twice is shortening once |
| PageButtons.TruncateCollides | frontend/src/pages/MyBlogs.js:67-70 | two long contents give the same preview iff they start alike |
| BlogListPage.CurrentPage | frontend/src/pages/BlogList.js:12 | the requested page is never 0 and is 1 when absent |
| BlogListPage.RequestedPageRoundTrip | frontend/src/pages/BlogList.js:12-20 | the route reads back the page the page asked for |
| BlogListPage.PageRoundTrip | backend/routes/blogs.js:13 | `parseInt(String(p)) \|\| 1` gives back every page p other than 0, negative pages included |
| BlogListPage.WindowedItems | frontend/src/pages/BlogList.js:52-53 | there is no row without a pagination object or with at most one page |
| BlogListPage.RenderPagination | frontend/src/pages/BlogList.js:52-131 | the pushes build exactly the windowed row |
| BlogListPage.WindowedNumbers | frontend/src/pages/BlogList.js:72-115 | the row numbers the first page, the window around the current page, and the last page |
| BlogListPage.ShownNumbersOrdered | frontend/src/pages/BlogList.js:72-115 | those numbers strictly increase and lie within `1..totalPages` |
| BlogListPage.WindowedCounts | frontend/src/pages/BlogList.js:75-115 | one active button iff the current page exists; an ellipsis for each gap before or after the window |
| BlogListPage.WindowedEnds | frontend/src/pages/BlogList.js:58-128 | Previous is first iff there is a previous page and Next is last iff there is a next one, each one page away |
| MyBlogsPage.Without | frontend/src/pages/MyBlogs.js:47 | the filtered list holds only listed posts other than the deleted one |
| MyBlogsPage.WithoutAppend | frontend/src/pages/MyBlogs.js:47 | filtering distributes over concatenation |
| MyBlogsPage.WithoutKeepsOthers | frontend/src/pages/MyBlogs.js:47 | every other post stays |
| MyBlogsPage.WithoutRemovesOne | frontend/src/pages/MyBlogs.js:47-53 | with distinct ids, exactly one post leaves |
| MyBlogsPage.MyBlogs.constructor | frontend/src/pages/MyBlogs.js:8-9 | the page starts with no posts and no pagination |
| MyBlogsPage.MyBlogs.HandleDelete | frontend/src/pages/MyBlogs.js:37-60 | nothing changes unless the user confirmed and the delete succeeded; then the post leaves the list and `totalBlogs` drops by one |
| MyBlogsPage.FullItems | frontend/src/pages/MyBlogs.js:80-81 | there is no row without a pagination object or with at most one page |
| MyBlogsPage.RenderPagination | frontend/src/pages/MyBlogs.js:80-124 | the pushes build exactly Previous, every page and Next |
| MyBlogsPage.FullRow | frontend/src/pages/MyBlogs.js:99-110 | the row numbers every page `1..totalPages` with no ellipsis, and one active button iff the current page exists |
| Theme.InitialTheme | frontend/src/context/ThemeContext.js:12-20 | a stored `light`/`dark` wins; otherwise `dark` iff the browser reports a dark preference |
| Theme.ToggleTwice | frontend/src/context/ThemeContext.js:39 | toggling twice restores `light`/`dark`, and turns any other value into `light` |
| Theme.ToggleFlipsRootAttribute | frontend/src/context/ThemeContext.js:24-39 | the root attribute tells `light` from `dark`, and every toggle switches it between present and absent |
| Theme.ThemeProvider.constructor | frontend/src/context/ThemeContext.js:22 | the provider starts from the initial theme |
| Theme.ThemeProvider.ApplyEffect | frontend/src/context/ThemeContext.js:33-36 | the effect sets the root attribute and persists the theme |
| Theme.ThemeProvider.SetTheme | frontend/src/context/ThemeContext.js:38 | any value becomes the theme |
| Theme.ThemeProvider.ToggleTheme | frontend/src/context/ThemeContext.js:39 | the theme is toggled |
| Theme.PersistedThemeRestored | frontend/src/context/ThemeContext.js:13-14 | a persisted `light`/`dark` is restored on the next mount |
| Theme.OtherThemeNotRestored | frontend/src/context/ThemeContext.js:13-19 | any other persisted value is ignored on the next mount |

## Left out

- Persistence, HTTP, React rendering and routing are not modelled. The store is a map from ids to post values, and a request's outcome is an input.
- `populate('author', ...)` and the `authorName` virtual (backend/models/Blog.js:44-53) are left out: a post's author is its user id.
- The clock is a parameter. One `now` serves both the slug suffix and the timestamps of a save.
- Authentication is left out; the caller's id is an input. Request bodies are strings; other JSON types are not modelled.
- A malformed id (`CastError`) is modelled as an absent id.
- `slug` uniqueness is the database's job. A clash is modelled as the 500 the route answers, and store consistency is proved to be kept.
- Among posts with equal creation times the sort order is not fixed. The model inserts stably, and its lemmas rely only on the newest-first order.
- Lengths count characters, not UTF-16 code units. `toLowerCase` is modelled for ASCII letters only.
- BlogRoutes.BlogStore.Create, BlogRoutes.BlogStore.Update: the model uses one count for a title's length in both the route check and the schema. The source counts twice. The route's `isLength({ min: 1, max: 200 })` (backend/routes/blogs.js:73 and :108) counts a surrogate pair as one character. The schema's `maxlength: 200` (backend/models/Blog.js:8) counts UTF-16 code units. A trimmed title of 101 to 200 characters outside the Basic Multilingual Plane therefore passes the route, fails the schema on save, and gets 500 (backend/routes/blogs.js:97-99 and :140-145). The model answers 201 or 200 for it.
- Validation errors carry the field name as the client reads it (`param`).
- The front end's dialogs, alerts and navigation are left out: the confirm answer is an input, and navigation is an action value. This covers the delete dialog of BlogDetail.js:40-56.
- Also left out: loading flags, scrolling, date formatting, `useEffect` fetches and search-parameter updates.
- An empty pagination object `{}` is modelled as `None`. The source's `totalBlogs - 1` on it would give `NaN`, and the model leaves it `None`.
- Home.js, Login.js, App.js, Header.js, api.js and server.js are not part of this model. Home.js's preview is the same `Truncate` at 150 characters.
- `matchMedia` is a boolean input, and `localStorage` is the `stored` field.
- Slug.TrimCallIsNoOp: `.trim('-')` reads as if it strips hyphens, but `String.prototype.trim` takes no argument and trims white space only. So a title starting with `-` keeps that hyphen in its slug (Slug.LeadingHyphenSurvives). The model follows the code.
- BlogListPage.PageRoundTrip: holds for unbounded integers. In JavaScript the round trip holds only for pages of magnitude at most 2^53 - 1 (`Number.MAX_SAFE_INTEGER`). Above that `parseInt` rounds, and from 1e21 on `String(p)` uses exponent form, which `parseInt` reads as 1.
- BlogListPage.RequestedPageRoundTrip: the same bound of 2^53 - 1 applies.
- JsText.ParseInt, Pagination.QueryNumber and Pagination.Skip use unbounded integers, not IEEE doubles. `parseInt` of a very long numeral gives `Infinity` in JavaScript, and `skip` is a double there.
- Concurrency is not modelled: each route is one atomic step on the store.
