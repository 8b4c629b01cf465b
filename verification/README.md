# Penwise articles in Dafny

A model of the article resource of the Penwise blogging backend: the six
handlers of `routes/articles.js` (create, list, get by slug, update, toggle
like, add comment) and the Mongoose schema of `models/Article.js` they save
through.

The article collection is a `map<ArticleId, Article>` whose keys are the
documents' `_id`s. Every handler is a step from the collection to a `Reply`
that holds the HTTP status, the JSON body and the collection afterwards.
The caller is the user id that the authentication middleware has already
verified. Three things the handlers call cannot be seen, so they are
parameters:

- `Env.slugify` is `slugify(title, {lower: true})`, an uninterpreted function.
- `Env.parseTags` is `JSON.parse(tags)` followed by the schema's cast to an array of strings. It is uninterpreted and returns `None` when it throws.
- `Faults` says which database round trip fails: the read, the write of `save`, or the `populate` after a save. For list and get by slug, a failure of the `populate` chained onto `find`/`findOne` counts as a failed read. The clock is a `now` parameter.

Files:

- `wrappers.dfy`: `Option` and `Result`.
- `text.dfy`: JavaScript `trim`, the operation behind the schema's `trim: true` setters.
- `likes.dfy`: the like toggle, built from `indexOf`, `splice` and `push`.
- `article_model.dfy`: the `Article` and `Comment` records, `save` (validators, unique indexes, timestamps) and the store invariant.
- `article_routes.dfy`: the handlers, the router dispatch and the lemmas that relate several calls.

The store invariant `ValidStore` covers three things. Every stored article
has a non-empty `title`, `content`, `excerpt` and `slug`. Its title and tags
are trimmed and nobody likes it twice. No two articles share a slug. Every
handler preserves the invariant (`Handle`).

Behaviour of the code worth knowing:

- Two like toggles starting from a liked state need not give back the same array. The caller's id moves to the end, if it is not already there; the same users remain.
- `likes` is an array with no uniqueness constraint in the schema. Only the toggle keeps it free of duplicates.
- `GET /api/articles/:slug` answers 500 when the query itself fails.
- `update` assigns the body's `tags` as given, while `create` runs `JSON.parse` on them.
- When `populate` fails after a successful `save`, `create`, `update` and add-comment answer 500, but the write has happened.

## Model

| member | source | states |
|---|---|---|
| Text.Trim | models/Article.js:4-8 | the trimmed title has no whitespace at either end, is a contiguous slice of the input, and only whitespace lies outside that slice |
| Text.TrimAll | models/Article.js:30-33 | every resulting tag is trimmed, each is the trim of the tag at the same position, and the number of tags is kept |
| Text.TrimFixesExactlyTrimmed | models/Article.js:4-8 | trimming changes a string exactly when it has whitespace at an end |
| Text.TrimIdempotent | models/Article.js:4-8 | trimming a stored title again changes nothing |
| Text.TrimEmptyIffAllWhitespace | models/Article.js:4-8 | a title trims to the empty string exactly when it is all whitespace |
| Likes.IndexOf | routes/articles.js:100 | `indexOf` returns -1 exactly when the caller is absent, and otherwise the first position holding the caller |
| Likes.RemoveAt | routes/articles.js:103 | `splice(i, 1)` drops position `i`, shifts the rest down by one, and removes one copy of that element |
| Likes.Toggle | routes/articles.js:100-106 | an absent caller is appended; a present caller loses its first occurrence; exactly one copy of the caller is added or removed and no other user's count changes |
| Likes.ToggleFlipsMembership | routes/articles.js:100-106 | on a duplicate-free `likes`, the toggle flips the caller's membership and no other user's |
| Likes.TogglePreservesNoDup | routes/articles.js:100-106 | the toggle never introduces a duplicate like |
| Likes.ToggleTwiceFromAbsent | routes/articles.js:100-106 | two toggles starting without the caller restore the exact array |
| Likes.ToggleTwiceFromPresent | routes/articles.js:100-106 | two toggles starting with the caller keep the same users with the same counts, with the caller moved to the end |
| ArticleModel.Save | models/Article.js:3-51 | a save succeeds exactly when the required fields are non-empty, the `_id` of a new document is unused and that of an existing one is stored (otherwise the update finds no document), the slug is unused, and the write does not fail; it writes only that document, changes only its timestamps (`createdAt` when new, `updatedAt` always), and keeps the store invariant when the saved record is trimmed and has no duplicate like |
| ArticleRoutes.Create | routes/articles.js:8-34 | a bad cover image gives 400 with nothing stored, and 400 means exactly that; 201 exactly when every check passes; a failed parse, a failed write or a taken slug stores nothing; a new article has the caller as author, the slugified title, trimmed title and tags, empty likes and comments, and both timestamps at `now`; a 500 with a stored article happens only when `populate` fails, and when only `populate` fails the article is stored and the answer is 500; the store invariant is kept |
| ArticleRoutes.InsertNewestFirst | routes/articles.js:40 | inserting into a newest-first sequence keeps it newest first and adds exactly one element |
| ArticleRoutes.InsertKeepsIdsDistinct | routes/articles.js:36-41 | inserting an article with a new id keeps ids distinct |
| ArticleRoutes.List | routes/articles.js:36-45 | 500 exactly when the query fails; otherwise 200 with every stored article exactly once, ordered by `createdAt` non-increasing; the store is unchanged |
| ArticleRoutes.GetBySlug | routes/articles.js:47-61 | 500 exactly when the query fails; otherwise 404 exactly when no article has the slug, and 200 with a stored article carrying it, which is the only one when slugs are unique; the store is unchanged |
| ArticleRoutes.Update | routes/articles.js:63-90 | a failed lookup gives 500, then an unknown id gives 404, then a non-author gives 403, each with the store unchanged; a failed save writes nothing; 200 exactly when there is no fault, the caller is the author, title, content and excerpt are present and non-empty (title after trimming), the slugified title is non-empty and no other article uses it; the store changes only when the caller is the author; then only `title`, `content`, `excerpt`, `slug` (the slugified title), `tags` and `updatedAt` change; when only `populate` fails the edit is written and the answer is 500; the store invariant is kept |
| ArticleRoutes.ToggleLike | routes/articles.js:92-113 | 404 exactly for an unknown id; a failed save gives 500 with the store unchanged; on success only that article's `likes` (toggled) and `updatedAt` change and the reply is the new `likes`; in a valid store only a database failure prevents success; the store invariant is kept |
| ArticleRoutes.AddComment | routes/articles.js:115-134 | an unknown id gives 404 with the store unchanged; a failed save gives 500 with the store unchanged; in a valid store a failed `populate` after the save gives 500 with the comment stored; any write appends exactly one comment by the caller with the given content and `createdAt = now`, keeps the old comments as a prefix, and changes nothing else but `updatedAt`; the reply is the whole new list |
| ArticleRoutes.ToggleLikeFlipsMembership | routes/articles.js:100-109 | in a valid store a successful like flips whether the caller likes the article |
| ArticleRoutes.LikeTwiceFromAbsentRestores | routes/articles.js:92-113 | liking twice from not liking gives back the original `likes` |
| ArticleRoutes.LikeTwiceFromPresentReorders | routes/articles.js:92-113 | liking twice from liking keeps the same users, with the caller moved to the end |
| ArticleRoutes.SecondCreateWithSameSlugFails | routes/articles.js:16-32 | after a successful create, a second create whose title slugifies to the same slug never succeeds, whatever `_id` it is given |
| ArticleRoutes.BlankTitleNeverCreates | routes/articles.js:16-28 | an empty or all-whitespace title makes create store nothing and not answer 201 |
| ArticleRoutes.Handle | routes/articles.js:8-134 | every request keeps the store invariant; list and get leave the store unchanged; 201 and 400 come only from create, 400 only for a bad cover image, and 403 only from update by a non-author |

## Left out

- `functions/app.js`: Express setup, CORS, body parsing, the database connection, `listen` and the serverless wrapper are bootstrapping and I/O.
- The `auth` middleware and its 401 answers: the caller id is an input that is already verified.
- `populate` of authors and comment users: it needs the User model, which is not part of this model. Responses carry the stored records, and only the failure of the `populate` query is modelled.
- ObjectId casting: ids are plain strings compared for equality. A malformed `:id` makes `findById` throw a CastError, which the source answers with 500. Here such an id is simply not found (404).
- Mongoose casting of non-string body values, such as a number as `title`: body fields are either strings or absent.
- Update: `tags` in the body is taken as the array the schema casts it to. An absent `tags`, or one that is not an array, is not modelled.
- `slugify` and `JSON.parse` internals: both are uninterpreted. Neither lower-casing nor URL-safety of slugs is claimed. The only library behaviour used is that both throw on `undefined`.
- Save timestamps: Mongoose skips the `updatedAt` refresh when a save modifies no path. The model refreshes it on every successful save.
- Save validation: on an existing document Mongoose validates only some paths; the model validates the whole record. Both agree on stores that satisfy the invariant.
- The comment subdocument `_id` and the `__v` version key are not modelled.
- Concurrent requests and lost updates: they are left to the database.
- Strings are sequences of Unicode scalar values, while JavaScript strings are UTF-16 code units. The whitespace set of `trim` is the ECMAScript one.
- List: MongoDB leaves the order of articles with equal `createdAt` unspecified, and so does the model.
