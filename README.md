# mern-blog resource layer, modelled in Dafny

This project models the server side of the mern-blog application, plus the one
client algorithm that carries logic of its own.

The server is the Express resource layer:
- the post routes: a paginated, searchable and filterable listing; lookup by id; authenticated create, update and delete that keep the upload directory in step with `post.image`;
- the comment routes: list by post, create against an existing post, and update and delete gated on ownership;
- the category routes: a listing sorted by name, lookup by id, a create that checks for a duplicate name, and update and delete that any authenticated requester may perform;
- the auth routes: register, which rejects a duplicate email or username, and login, whose failure reply is the same for every cause;
- the Joi request validators `postValidator`, `categoryValidator` and `commentValidator`;
- the Mongoose `Comment` and `Category` schemas.

The client algorithm is the `Pagination` component: its window of page numbers, and
what its Previous, page and Next buttons do.

Structure, one module per file:

- `js.dfy` (`Js`): the JavaScript built-ins the routes rely on:
  - truthiness and `||`;
  - `parseInt`;
  - `String.prototype.trim`;
  - the case-insensitive substring test that stands in for a `$regex` with option `'i'`.
- `sorting.dfy` (`Sorting`): the store's `.sort(...)`, as an insertion sort over an ordering relation, and the proof that a strict order admits only one sorted arrangement.
- `validators.dfy` (`Validators`): the three Joi validators, as pure functions from a payload to its first error.
- `models.dfy` (`Models`):
  - the four records;
  - the `Comment` and `Category` schema constraints and what `save()` makes of a document.
- `store.dfy` (`Db`):
  - the `Store` class, with one `seq` per collection kept in insertion order, and the invariant it keeps;
  - the `UploadDir` class, the set of file names on disk;
  - the `Response` every handler returns;
  - the `Fault` parameter, which names the store call that throws, if any.
- `posts.dfy`, `comments.dfy`, `categories.dfy`, `auth.dfy`: one module per route file.
  - Reads are functions over the store's sequences.
  - Writes are methods with `modifies store` (and `disk` for posts).
  - Each write states its response and its new state on every path, including the error paths.
- `pagination.dfy` (`Pagination`):
  - `getPageNumbers` is a method with the source's `push` loops.
  - It is proved equal to the specification function `Window`.
  - The shape of the window is proved as lemmas.

Things the source does not show are parameters:
- the requester id (from the `protect` middleware);
- the uploaded file name (from the upload middleware), which is required to be on disk and unreferenced;
- fresh ids and the current time;
- the register and login validators, the password hash, `matchPassword` and the token signer.

Where the store would throw, a `Fault` parameter chooses which call fails. The result
is then the `ServerError` response that stands for `next(error)`.

A few places where the code does less than it appears to intend:
- **A failing update save leaves a dangling image.** The post update deletes the old image before `post.save()`. If the save throws, the catch also deletes the new upload, so the stored post names a file that is gone. `Posts.UpdatePost` states this.
- **A failing create re-query deletes the new image.** If the re-query after `Post.create` throws, the catch deletes the file the new post references. `Posts.CreatePost` states this.
- **The update `||` fallbacks never apply.** The post update re-runs `postValidator`, which requires all three fields non-empty. `Posts.Updated` states this.
- **An update can never clear a category description.** The validator allows `""` as a description, but `""` is falsy, so the route keeps the old one. `Categories.EmptyDescriptionKeepsOld` states this.
- **A failing delete leaves a post without its image.** The post delete unlinks the image before `post.deleteOne()`. If the delete throws, the post stays in the store but its file is gone. `Posts.RemovePostAt` states this.
- **A blank category name passes the validator.** A name of only white space gets through, the schema's `trim` turns it into `""`, and the save fails. The create then ends in a server error, not a 400. `Categories.BlankNameReachesSchema` states this.
- **Comment updates are limited only by the schema.** The comment update runs no validator. The 500-character schema bound is the only limit, and exceeding it is a server error. `Comments.EditedSaves` states this.

## Model

| member | source | states |
|---|---|---|
| Js.DigitPrefix | mern-blog/server/routes/posts.js:13-14 | the digits `parseInt` reads are the longest prefix of digits, and the next character is not a digit |
| Js.ParseInt | mern-blog/server/routes/posts.js:13-14 | `parseInt` yields a negative number only when a minus sign follows the leading white space |
| Js.TrimStart | mern-blog/server/models/Category.js:8 | only leading white space is removed, and what remains does not start with white space |
| Js.TrimEnd | mern-blog/server/models/Category.js:8 | only trailing white space is removed, and what remains does not end with white space |
| Js.TrimShape | mern-blog/server/models/Category.js:8 | `trim` leaves a contiguous part of its input, and everything outside that part is white space |
| Js.Trim | mern-blog/server/models/Category.js:8 | a trimmed string is no longer than its input and neither starts nor ends with white space |
| Js.TrimIdempotent | mern-blog/server/models/Category.js:8 | trimming twice gives the same as trimming once |
| Js.ParseIntOfDecimal | mern-blog/server/routes/posts.js:13-14 | `parseInt` reads back every natural number written in decimal |
| Js.ParseIntOfDigits | mern-blog/server/routes/posts.js:13-14 | a run of decimal digits with no leading zero parses to its value |
| Js.DecimalDigitsValue | mern-blog/server/routes/posts.js:13-14 | the decimal rendering of `n` is all digits and denotes `n` |
| Js.ParseIntNoDigits | mern-blog/server/routes/posts.js:13-14 | a parameter with no digit after its white space and sign is `NaN`, so the `\|\|` default applies |
| Js.Contains | mern-blog/server/routes/posts.js:23-24 | true exactly when the needle occurs at some position of the haystack |
| Js.ContainsIgnoringCase | mern-blog/server/routes/posts.js:23-24 | the case-insensitive test holds exactly when some slice of the text equals the term up to ASCII case |
| Js.LowerAbsorbsCase | mern-blog/server/routes/posts.js:23-24 | folding to either case and then to lower case is the same as folding to lower case |
| Js.MatchIgnoresCaseOfEither | mern-blog/server/routes/posts.js:23-24 | upper- or lower-casing the search term, or the searched text, never changes whether it matches |
| Js.VerbatimMatchIgnoresCase | mern-blog/server/routes/posts.js:23-24 | a term that occurs verbatim also matches ignoring case |
| Sorting.Insert | mern-blog/server/routes/posts.js:40 | inserting adds exactly one occurrence of the element |
| Sorting.SortBy | mern-blog/server/routes/posts.js:40 | sorting is a permutation of its input |
| Sorting.InsertSorted | mern-blog/server/routes/posts.js:40 | inserting into an ordered sequence keeps it ordered, for any total preorder |
| Sorting.SortBySorted | mern-blog/server/routes/posts.js:40 | the sort's result is ordered by the given relation |
| Sorting.PermutationNoDuplicates | mern-blog/server/routes/posts.js:37-42 | a permutation of a sequence without duplicates has none either |
| Sorting.HeadsAgree | mern-blog/server/routes/posts.js:40 | a strictly ordered arrangement and an ordered arrangement of the same elements start with the same element |
| Sorting.SortedIsUnique | mern-blog/server/routes/posts.js:40 | under a strict order there is only one ordered arrangement of a multiset of elements |
| Validators.PostValidator | mern-blog/server/validators/postValidator.js:3-11 | a post payload passes exactly when title, content and category are all non-empty strings, the title is at most 200 characters, and no other key is present |
| Validators.PostValidatorRequiresAll | mern-blog/server/validators/postValidator.js:5-7 | a missing title, content or category is rejected with `any.required` on the first missing key, in schema order |
| Validators.PostTitleTooLong | mern-blog/server/validators/postValidator.js:5 | a title over 200 characters is rejected with the 200-character maximum error |
| Validators.PostContentUnbounded | mern-blog/server/validators/postValidator.js:6 | content of any length passes beside a valid title and category |
| Validators.CategoryValidator | mern-blog/server/validators/postValidator.js:13-20 | a category payload passes exactly when the name is a non-empty string of at most 50 characters, a description present is at most 200 characters, and no other key is present; a missing name is the error reported |
| Validators.CategoryDescriptionOptional | mern-blog/server/validators/postValidator.js:16 | an absent description passes, and so does the empty one |
| Validators.CommentValidator | mern-blog/server/validators/commentValidator.js:3-9 | a comment payload passes exactly when post and content are non-empty strings, content is at most 500 characters, and no other key is present; a missing post, a missing content and an over-long content each give their own error |
| Validators.Message | mern-blog/server/routes/posts.js:82 | the reported `error.details[0].message` opens with the offending key, in double quotes |
| Models.SaveCategory | mern-blog/server/models/Category.js:4-14 | the save trims the name first; the category is stored exactly when the trimmed name is non-empty and at most 50 characters and the description is at most 200; what is stored satisfies the schema |
| Models.SaveValidCategory | mern-blog/server/models/Category.js:4-14 | a category the schema already accepts is stored unchanged |
| Models.SavedNameIsStable | mern-blog/server/models/Category.js:8 | saving a stored category again stores the same name |
| Db.IndexOf | mern-blog/server/routes/posts.js:113 | `findById` finds a record with the key when there is one, and reports none exactly when no record has the key |
| Db.AppendKeepsDistinct | mern-blog/server/routes/posts.js:88-94 | appending a record under an unused id keeps ids unique |
| Db.IndexOfAppended | mern-blog/server/routes/posts.js:88-94 | a record appended under an unused id is then found at the end |
| Db.ReplaceKeepsDistinct | mern-blog/server/routes/posts.js:155 | saving a record under its own id keeps ids unique |
| Db.RemoveKeepsDistinct | mern-blog/server/routes/posts.js:192 | `deleteOne` keeps ids unique and removes exactly that record |
| Db.ValidStoreResaves | mern-blog/server/models/Comment.js:4-22 | every comment and category in a valid store is exactly what saving it again stores |
| Posts.PagingOf | mern-blog/server/routes/posts.js:13-15 | page and limit are at least 1, each is the parsed parameter or its default 1 or 10, and `skip` is `(page - 1) * limit` |
| Posts.PagingOfDecimal | mern-blog/server/routes/posts.js:13-15 | a client sending the decimal forms of positive `p` and `l` gets exactly page `p` of size `l` |
| Posts.PagingDefaults | mern-blog/server/routes/posts.js:13-15 | without page and limit the listing is page 1 of 10 with skip 0 |
| Posts.BuildQuery | mern-blog/server/routes/posts.js:18-31 | a truthy search adds exactly the title clause and the content clause, a falsy one none; a category filter is set exactly when the parameter is truthy |
| Posts.BuildQueryMeaning | mern-blog/server/routes/posts.js:18-31 | a post satisfies the built query exactly when its title or content contains the search term ignoring case (if a search is given) and its category equals the parameter (if one is given); with neither, every post matches |
| Posts.Select | mern-blog/server/routes/posts.js:34-37 | the selection holds exactly the posts that satisfy the query, and each no more often than the store |
| Posts.Ordered | mern-blog/server/routes/posts.js:37-40 | the ordered listing is a permutation of the selection and is newest first |
| Posts.SelectKeepsDistinct | mern-blog/server/routes/posts.js:37 | selecting from posts without duplicates gives none |
| Posts.Window | mern-blog/server/routes/posts.js:41-42 | skip and limit return the consecutive entries starting at position `skip`: exactly `limit` of them when enough remain, the rest when fewer do, and none when `skip` is past the end |
| Posts.CeilDiv | mern-blog/server/routes/posts.js:47 | the number of pages is the least `r` with `total <= r * limit` |
| Posts.OrderedMeaning | mern-blog/server/routes/posts.js:34-42 | the ordered listing holds exactly the matching posts, newest first, and is as long as the count |
| Posts.ListPosts | mern-blog/server/routes/posts.js:11-53 | `currentPage` is the page, `totalPosts` counts every matching post, `totalPages` is the ceiling of total over limit, and `posts` is the newest-first window at `skip` of at most `limit` matching posts |
| Posts.PageKWindow | mern-blog/server/routes/posts.js:13-15 | requesting page `k` returns the window at `(k - 1) * limit` of the same ordered listing, with the same total |
| Posts.OrderedDistinct | mern-blog/server/routes/posts.js:37-42 | a store with unique ids lists no post twice |
| Posts.PositionsDiffer | mern-blog/server/routes/posts.js:15 | entries of two different pages sit at different positions |
| Posts.PageOfPosition | mern-blog/server/routes/posts.js:15 | every position lies on some page |
| Posts.PageWithinTotal | mern-blog/server/routes/posts.js:47 | a page holding a real position is no later than `totalPages` |
| Posts.WindowsDisjoint | mern-blog/server/routes/posts.js:41-42 | two different pages of a sequence without duplicates share nothing |
| Posts.EntriesDiffer | mern-blog/server/routes/posts.js:41-42 | an entry of one page differs from every entry of another |
| Posts.WindowsCover | mern-blog/server/routes/posts.js:41-47 | every element is on some page between 1 and the page count |
| Posts.PagesDisjoint | mern-blog/server/routes/posts.js:37-42 | for a fixed store and the model's fixed order among equal timestamps, two different pages of one query share no post |
| Posts.PagesCover | mern-blog/server/routes/posts.js:37-47 | every matching post is on some page between 1 and `totalPages` |
| Posts.PagesDisjointAcrossRequests | mern-blog/server/routes/posts.js:37-42 | with distinct timestamps, any two newest-first orders the store may return agree with the model, so two different page requests share no post even when each is answered in its own order |
| Posts.NewestFirstIsUnique | mern-blog/server/routes/posts.js:40 | with distinct timestamps, there is only one newest-first arrangement of a set of posts |
| Posts.ListingOrderIsCanonical | mern-blog/server/routes/posts.js:37-42 | with distinct timestamps, the listing order is that unique arrangement, whatever the store's order |
| Posts.SecondOfThree | mern-blog/server/routes/posts.js:13-49 | page 2 of size 1 over three matches is the second newest, with three pages and three posts in total |
| Posts.GetPost | mern-blog/server/routes/posts.js:56-70 | a stored post with the id is returned with 200; otherwise 404 "Post not found" |
| Posts.ImageOf | mern-blog/server/routes/posts.js:93 | the public path `/uploads/<file>` stored for an upload resolves back to that file, and `null` to none |
| Posts.StoredFile | mern-blog/server/routes/posts.js:185-187 | an image resolves to a file of the upload directory only when it is `/uploads/` followed by that file name |
| Posts.DiscardUpload | mern-blog/server/routes/posts.js:79-81 | unlinking `req.file` removes the upload, if there is one, and nothing else |
| Posts.RemoveImage | mern-blog/server/routes/posts.js:184-190 | unlinking a post's image removes its file when it is on disk and nothing else; a missing file is no error |
| Posts.AuthorNeverFromBody | mern-blog/server/routes/posts.js:85-94 | a payload carrying an `author` key is refused, so the author cannot come from the body |
| Posts.NewPost | mern-blog/server/routes/posts.js:85-94 | the created post has the requester as author, the upload as its image file, and a validated title, content and category |
| Posts.CreatePost | mern-blog/server/routes/posts.js:73-108 | an invalid payload gives 400 with the first error, deletes the upload and stores nothing; a failing create deletes the upload; otherwise one post is stored with the requester as author and the upload's path as image. A failing re-query deletes the file that post references, and otherwise images stay on disk and distinct |
| Posts.Updated | mern-blog/server/routes/posts.js:147-153 | the update keeps id, author and creation time; it changes the image only with an upload, to that upload's file; after the validator every text field comes from the payload |
| Posts.UpdatePost | mern-blog/server/routes/posts.js:111-168 | 404, 403 and 400, in that order, delete the upload and change nothing else. Otherwise, with an upload, the old image is deleted before the save; a failing save also deletes the upload, leaving the stored post naming a deleted file. A save stores exactly the updated post, and a full success keeps images on disk and distinct |
| Posts.ReplacePostAt | mern-blog/server/routes/posts.js:139-167 | once the checks pass, the old image goes first, then the save replaces exactly that post, then the re-read; each failure after the unlink also deletes the upload |
| Posts.UpdateKeepsImages | mern-blog/server/routes/posts.js:139-155 | replacing a post's image by a fresh upload keeps every image on disk and no file shared |
| Posts.DeletePost | mern-blog/server/routes/posts.js:171-198 | 404 and 403 change nothing. Otherwise the image file is removed if present, then exactly that post; comments are left in place and images stay on disk and distinct |
| Posts.RemovePostAt | mern-blog/server/routes/posts.js:184-194 | once the checks pass, the image goes first and then exactly the post with that id |
| Posts.DeleteKeepsImages | mern-blog/server/routes/posts.js:184-192 | removing a post and its file keeps every other post's image on disk and no file shared |
| Posts.CreateThenDelete | mern-blog/server/routes/posts.js:73-198 | creating a post with an image and deleting it as its author restores the store and removes the upload |
| Posts.OnlyTheAuthorDeletes | mern-blog/server/routes/posts.js:180-194 | another user's delete is refused with 403, the author's succeeds, and the post is then not found |
| Comments.OfPost | mern-blog/server/routes/comments.js:11 | the selection holds exactly the comments of that post |
| Comments.ListComments | mern-blog/server/routes/comments.js:9-19 | exactly the comments of the post, each once, newest first; an id no comment has gives the empty list |
| Comments.NewComment | mern-blog/server/routes/comments.js:38-42 | the created comment has the requester as author and post and content from the body, and a validated payload always saves unchanged, because both bounds are 500 |
| Comments.CreateComment | mern-blog/server/routes/comments.js:22-51 | an invalid payload gives 400 before any lookup; an unknown post gives 404; otherwise exactly one comment is stored, with the requester as author and post and content from the body |
| Comments.EditedSaves | mern-blog/server/routes/comments.js:67-69 | the edited comment saves exactly when the new content is falsy or at most 500 characters |
| Comments.UpdateComment | mern-blog/server/routes/comments.js:54-78 | 404 and 403 change nothing; otherwise the edited comment replaces exactly that comment, or the schema refusal is a server error |
| Comments.DeleteComment | mern-blog/server/routes/comments.js:81-100 | 404 and 403 change nothing; otherwise exactly the comment with that id is removed |
| Comments.EditKeepsOwnership | mern-blog/server/routes/comments.js:67 | repeated edits never change author or post, and the last truthy content wins |
| Categories.LexTotal | mern-blog/server/routes/categories.js:12 | any two names are ordered one way or the other |
| Categories.LexTransitive | mern-blog/server/routes/categories.js:12 | the name order is transitive |
| Categories.LexAntisymmetric | mern-blog/server/routes/categories.js:12 | two names each ordered before the other are equal |
| Categories.LexLe | mern-blog/server/routes/categories.js:12 | a name sorts before every extension of it |
| Categories.ListCategories | mern-blog/server/routes/categories.js:10-17 | every category once, ordered by name ascending |
| Categories.NameOrderIsUnique | mern-blog/server/routes/categories.js:12 | with unique names there is only one name-ordered arrangement |
| Categories.ListingIgnoresStoreOrder | mern-blog/server/routes/categories.js:12 | two stores with the same categories in any order list them identically |
| Categories.PermutationNamesUnique | mern-blog/server/models/Category.js:7 | unique names survive a permutation |
| Categories.GetCategory | mern-blog/server/routes/categories.js:22-34 | a stored category with the id is returned with 200; otherwise 404 "Category not found" |
| Categories.AppendKeepsValid | mern-blog/server/models/Category.js:4-14 | adding a schema-valid category with a fresh id and an unused name keeps ids and names unique |
| Categories.ReplaceKeepsValid | mern-blog/server/models/Category.js:4-14 | saving a schema-valid category under its own id with a name no other category has keeps ids and names unique |
| Categories.RemoveKeepsValid | mern-blog/server/routes/categories.js:105 | removing a category keeps the rest valid |
| Categories.NewCategory | mern-blog/server/routes/categories.js:55-58 | once the validator accepts the body, the schema refuses the new category exactly when its name is blank after trimming |
| Categories.BlankNameReachesSchema | mern-blog/server/routes/categories.js:42-58 | every non-empty name of at most 50 white-space characters passes the validator, but the schema refuses it on save |
| Categories.CreateCategory | mern-blog/server/routes/categories.js:39-64 | an invalid payload gives 400 before any lookup; an existing trimmed name gives 400 "Category already exists" with the store unchanged; otherwise exactly one category is added, with the trimmed name and the given description |
| Categories.CreateTwice | mern-blog/server/routes/categories.js:50-60 | creating the same category twice stores one and refuses the second |
| Categories.EmptyDescriptionKeepsOld | mern-blog/server/routes/categories.js:83-84 | the empty description passes the validator yet keeps the old description |
| Categories.UpdateCategory | mern-blog/server/routes/categories.js:69-92 | 404 comes before validation; 400 on an invalid payload; a trimmed name the schema refuses or another category already has is a server error; otherwise exactly that category is replaced. No requester takes part |
| Categories.DeleteCategory | mern-blog/server/routes/categories.js:97-111 | 404 changes nothing; otherwise exactly that category is removed and posts are untouched. No requester takes part |
| Auth.Register | mern-blog/server/routes/auth.js:15-49 | an invalid payload gives 400; a user sharing the email or the username gives 400 "User already exists"; in both cases the users are unchanged. Otherwise exactly one user is added and replied 201; unique emails and usernames stay unique |
| Auth.Login | mern-blog/server/routes/auth.js:52-78 | an invalid payload gives 400 before any lookup; an unknown email or a password that does not match gives 401 "Invalid email or password"; a success replies with a stored user of that email |
| Auth.LoginFailureIsUniform | mern-blog/server/routes/auth.js:63-74 | an unknown email and a wrong password get the same 401 reply |
| Auth.InvalidLoginIgnoresUsers | mern-blog/server/routes/auth.js:55-58 | a refused login payload gets the same reply whatever users exist |
| Auth.RegisterThenLogin | mern-blog/server/routes/auth.js:15-78 | after a registration, logging in with the same email and password returns the new user's own id, username and email |
| Pagination.Range | mern-blog/client/src/components/common/Pagination.jsx:8-11 | the pages `lo` to `hi` in order, and none when `lo > hi` |
| Pagination.PushRange | mern-blog/client/src/components/common/Pagination.jsx:9-11 | the `for`/`push` loop appends exactly the pages `lo` to `hi` |
| Pagination.GetPageNumbers | mern-blog/client/src/components/common/Pagination.jsx:4-37 | the array `getPageNumbers` builds is the window of the current page |
| Pagination.FewPagesAllShown | mern-blog/client/src/components/common/Pagination.jsx:8-11 | up to five pages are all listed, in order, with no ellipsis |
| Pagination.NearStart | mern-blog/client/src/components/common/Pagination.jsx:13-18 | over five pages, near the start: 1, 2, 3, 4, an ellipsis and the last page |
| Pagination.NearEnd | mern-blog/client/src/components/common/Pagination.jsx:19-24 | near the end: 1, an ellipsis and the last four pages |
| Pagination.InTheMiddle | mern-blog/client/src/components/common/Pagination.jsx:25-33 | otherwise: 1, an ellipsis, the current page with its neighbours, an ellipsis and the last page |
| Pagination.SmallShape | mern-blog/client/src/components/common/Pagination.jsx:8-11 | the all-pages window is well shaped |
| Pagination.StartShape | mern-blog/client/src/components/common/Pagination.jsx:13-18 | the near-start window is well shaped |
| Pagination.EndShape | mern-blog/client/src/components/common/Pagination.jsx:19-24 | the near-end window is well shaped |
| Pagination.MiddleShape | mern-blog/client/src/components/common/Pagination.jsx:25-33 | the middle window is well shaped |
| Pagination.WindowShape | mern-blog/client/src/components/common/Pagination.jsx:4-37 | with two or more pages the window has at most seven entries, starts at 1 and ends at the last page, lists increasing pages within range, steps between neighbouring numbers by one, and puts an ellipsis only where it hides a page |
| Pagination.WindowShowsCurrent | mern-blog/client/src/components/common/Pagination.jsx:4-37 | a current page between 1 and the last is always in the window |
| Pagination.ArrowTargetsShown | mern-blog/client/src/components/common/Pagination.jsx:41-76 | an enabled Previous or Next button leads to a page whose button is in the window |
| Pagination.BarStaysInRange | mern-blog/client/src/components/common/Pagination.jsx:41-76 | on a real page, every click leads to a page between 1 and the last, and exactly one page button is highlighted |

## Left out

- Concurrency: two requests interleaving between the existence check and the write (categories.js lines 50-58, auth.js lines 26-36) are not modelled. Each handler is one atomic step on the store.
- The `protect` and upload middleware are not part of this model.
  - The requester arrives as an id.
  - The upload arrives as an optional file name that is on disk and that no post references.
- `populate` projections: responses return the stored record itself.
- Password hashing, `matchPassword`, JWT signing and the register and login validators are parameters.
  - `authValidator.js` and `User.js` are not part of this model.
  - A register body is assumed to carry the three string fields its validator requires.
- `/auth/me` is left out, because it relies on a `req.user` that nothing on that route sets.
- A malformed id makes `findById` throw a cast error. Here every id is a string that is either found or not.
- Store failures on the GET routes (which pass the error to `next`) are not modelled. Their reads are pure functions of the store.
- Regular-expression metacharacters in `search` are not covered. The search is a literal substring match under ASCII case folding, with no Unicode case folding.
- `parseInt` is modelled on integer text with an optional sign and `0x` prefix. The double rounding of very long numbers is not modelled.
- Payload fields are `Option<string>`: a JSON value that is not a string is not modelled. Joi would refuse one with 400 `"x" must be a string`. On the comment update, which runs no validator (comments.js line 67), Mongoose would cast a truthy non-string to a string.
- String lengths count Dafny characters, not UTF-16 code units, so surrogate pairs differ from JavaScript's `length`.
- Posts.ListPosts, Posts.PagingOf, Posts.PageK, Posts.PageKWindow, Posts.PagesDisjoint, Posts.PagesCover: require a non-negative page and limit (`NonNegativePaging`). `parseInt` lets negative values through, and the store's handling of a negative skip or limit is not part of this model.
- The store's order among posts or comments with equal `createdAt` is whatever the database returns. The model fixes one such order (its insertion sort's), so `PagesDisjoint` holds for that order. `NewestFirstIsUnique` shows that the order is fully determined when timestamps are distinct, and `PagesDisjointAcrossRequests` states disjointness for any orders the store may pick in that case.
- Joi behaviour the source relies on without stating it is modelled as stated assumptions:
  - `Joi.string()` rejects `""` unless `allow('')` is given;
  - an object schema rejects undeclared keys after checking its declared keys in order;
  - the error messages follow Joi's default English wording.
- The category `name` trim setter is assumed to apply to the `findOne({ name })` filter as well, so the duplicate check compares trimmed names.
- Categories.CreateCategory: a duplicate that slips past the existence check and is caught by the unique index at save is not modelled separately. Without concurrency the check always catches it first.
- Documents are updated by replacing the record in the collection's sequence. There are no shared document objects, so aliasing between a loaded document and the store is not modelled.
- The store holds each collection as an insertion-ordered sequence rather than a map from id to record, because the listing needs the natural order.
- Post creation does not check that `category` names an existing category, and neither does the model, as in the source.
- `createdAt` defaults are the `now` parameter. Comment records always carry their `post` and `author` references, so the schema's `required` on those fields holds by construction.
- The React rendering, styles and button labels of `Pagination` are not modelled; only its window, click targets, disabled states and active state are.
