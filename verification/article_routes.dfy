/**
  The article resource handlers (`routes/articles.js`), each a step from the
  current collection to an HTTP status, a response body and the new
  collection. The caller is the user id the authentication middleware has
  already verified. `slugify` and `JSON.parse` are library code and enter as
  the uninterpreted functions of an `Env`; database failures enter as `Faults`.
 */
module ArticleRoutes {
  import opened Wrappers
  import opened Text
  import opened Likes
  import opened ArticleModel

  const OK: nat := 200
  const CREATED: nat := 201
  const BAD_REQUEST: nat := 400
  const FORBIDDEN: nat := 403
  const NOT_FOUND: nat := 404
  const SERVER_ERROR: nat := 500

  /** The prefix an inline cover image must carry. */
  const IMAGE_PREFIX: string := "data:image/"

  /** The JSON payload of a response. Author and comment-user population is the identity here. */
  datatype Body =
    | ArticleBody(article: Article)
    | ArticlesBody(articles: seq<Article>)
    | LikesBody(likes: seq<UserId>)
    | CommentsBody(comments: seq<Comment>)
    | MessageBody(message: string)

  /** A handler's outcome: status, payload and the collection afterwards. */
  datatype Reply = Reply(status: nat, body: Body, store: Store)

  /**
    Library functions the handlers call: `slugify(title, {lower: true})`, and
    `JSON.parse` of the `tags` text followed by the schema's cast to an array
    of strings (`None` when either throws).
   */
  datatype Env = Env(slugify: string -> string, parseTags: string -> Option<seq<string>>)

  /**
    Which database round trips fail: the read (`findById`, or `find`/`findOne`
    together with the `populate` chained onto them when listing or getting by
    slug), the write of `save`, and the `populate` query that follows a save.
   */
  datatype Faults = Faults(read: bool, write: bool, populate: bool)

  /** The body of `POST /api/articles`; any field may be absent. */
  datatype CreateInput = CreateInput(
    title: Option<string>,
    content: Option<string>,
    excerpt: Option<string>,
    tags: Option<string>,
    coverImage: Option<string>)

  /** The body of `PUT /api/articles/:id`; `tags` is already the array the schema casts it to. */
  datatype UpdateInput = UpdateInput(
    title: Option<string>,
    content: Option<string>,
    excerpt: Option<string>,
    tags: seq<string>)

  function ServerError(store: Store): Reply {
    Reply(SERVER_ERROR, MessageBody("Server error"), store)
  }

  function NotFound(store: Store): Reply {
    Reply(NOT_FOUND, MessageBody("Article not found"), store)
  }

  /** A cover image that is present, non-empty (so truthy) and not an inline image. */
  predicate BadCoverImage(coverImage: Option<string>) {
    coverImage.Some? && |coverImage.value| > 0 && !(IMAGE_PREFIX <= coverImage.value)
  }

  /** Every check `create` makes passes, stated on the request and the collection alone. */
  predicate CreateSucceeds(store: Store, env: Env, faults: Faults, newId: ArticleId, input: CreateInput) {
    && !BadCoverImage(input.coverImage)
    && input.title.Some? && input.content.Some? && input.excerpt.Some? && input.tags.Some?
    && env.parseTags(input.tags.value).Some?
    && |Trim(input.title.value)| > 0 && |input.content.value| > 0 && |input.excerpt.value| > 0
    && |env.slugify(input.title.value)| > 0
    && newId !in store
    && SlugFreeFor(store, env.slugify(input.title.value), newId)
    && !faults.write && !faults.populate
  }

  /**
    `a` is the article `create` builds from `input`: the author is the caller,
    the slug is the slugified raw title, title and tags are trimmed, likes and
    comments start empty, and both timestamps are the save time.
   */
  predicate CreatedFrom(a: Article, env: Env, caller: UserId, newId: ArticleId, now: Time, input: CreateInput) {
    && input.title.Some? && input.content.Some? && input.excerpt.Some? && input.tags.Some?
    && env.parseTags(input.tags.value).Some?
    && a.id == newId
    && a.author == caller
    && a.slug == env.slugify(input.title.value)
    && a.title == Trim(input.title.value)
    && a.content == input.content.value
    && a.excerpt == input.excerpt.value
    && a.tags == TrimAll(env.parseTags(input.tags.value).value)
    && a.coverImage == input.coverImage
    && a.likes == [] && a.comments == []
    && a.createdAt == now && a.updatedAt == now
  }

  /**
    `POST /api/articles`. A bad cover image is refused with 400 before
    anything else; any later failure (slugify or JSON.parse throwing, a
    validator, a duplicate slug, the write) is a 500 that adds nothing. When
    only the populate after the save fails, the reply is 500 but the article
    is stored.
   */
  function Create(store: Store, env: Env, faults: Faults, caller: UserId, newId: ArticleId, now: Time,
                  input: CreateInput): (r: Reply)
    ensures r.status in {CREATED, BAD_REQUEST, SERVER_ERROR}
    ensures r.status == BAD_REQUEST <==> BadCoverImage(input.coverImage)
    ensures BadCoverImage(input.coverImage) ==> r.store == store
    ensures r.status == CREATED <==> CreateSucceeds(store, env, faults, newId, input)
    ensures !BadCoverImage(input.coverImage) && input.tags.Some? && env.parseTags(input.tags.value).None? ==>
      r == ServerError(store)
    ensures faults.write ==> r.status != CREATED && r.store == store
    ensures input.title.Some? && !SlugFreeFor(store, env.slugify(input.title.value), newId) ==>
      r.status != CREATED && r.store == store
    ensures r.store != store ==>
      && r.status in {CREATED, SERVER_ERROR}
      && WritesOnly(store, r.store, newId) && newId !in store
      && CreatedFrom(r.store[newId], env, caller, newId, now, input)
      && HasRequiredFields(r.store[newId])
    ensures r.status == SERVER_ERROR && r.store != store ==> faults.populate
    ensures faults.populate && CreateSucceeds(store, env, faults.(populate := false), newId, input) ==>
      r.status == SERVER_ERROR && r.store != store
    ensures r.status == CREATED ==> r.store != store && r.body == ArticleBody(r.store[newId])
    ensures ValidStore(store) ==> ValidStore(r.store)
  {
    if BadCoverImage(input.coverImage) then
      Reply(BAD_REQUEST, MessageBody("Invalid image format"), store)
    else if input.title.None? then
      ServerError(store)  // slugify throws on a non-string
    else
      var slug := env.slugify(input.title.value);
      if input.tags.None? then
        ServerError(store)  // JSON.parse(undefined) throws
      else
        match env.parseTags(input.tags.value)
        case None => ServerError(store)
        case Some(tags) =>
          if input.content.None? || input.excerpt.None? then
            ServerError(store)  // the required validator refuses an undefined field
          else
            var draft := Article(newId, Trim(input.title.value), input.content.value, input.excerpt.value,
                                 slug, caller, input.coverImage, TrimAll(tags), [], [], now, now);
            match Save(store, draft, true, now, faults.write)
            case Failure(_) => ServerError(store)
            case Success(saved) =>
              if faults.populate then ServerError(saved.store)
              else Reply(CREATED, ArticleBody(saved.doc), saved.store)
  }

  /** Newest first: `createdAt` never increases along the sequence. */
  predicate NewestFirst(articles: seq<Article>) {
    forall i, j :: 0 <= i < j < |articles| ==> articles[i].createdAt >= articles[j].createdAt
  }

  /** No article id occurs twice. */
  predicate DistinctIds(articles: seq<Article>) {
    forall i, j :: 0 <= i < j < |articles| ==> articles[i].id != articles[j].id
  }

  /** How many leading articles of a newest-first sequence are at least as new as `a`. */
  function AtLeastAsNew(articles: seq<Article>, a: Article): (p: nat)
    requires NewestFirst(articles)
    ensures p <= |articles|
    ensures forall i :: 0 <= i < p ==> articles[i].createdAt >= a.createdAt
    ensures forall i :: p <= i < |articles| ==> articles[i].createdAt < a.createdAt
  {
    if |articles| == 0 || articles[0].createdAt < a.createdAt then 0
    else 1 + AtLeastAsNew(articles[1..], a)
  }

  /**
    Inserts `a` into a newest-first sequence after every article at least as
    new: the result is still newest first and holds exactly one more element, `a`.
   */
  function InsertNewestFirst(articles: seq<Article>, a: Article): (r: seq<Article>)
    requires NewestFirst(articles)
    ensures NewestFirst(r)
    ensures |r| == |articles| + 1
    ensures multiset(r) == multiset(articles) + multiset{a}
    ensures forall b :: b in r <==> b in articles || b == a
  {
    var p := AtLeastAsNew(articles, a);
    assert articles == articles[..p] + articles[p..];
    articles[..p] + [a] + articles[p..]
  }

  /** Inserting an article whose id is new keeps ids distinct. */
  lemma InsertKeepsIdsDistinct(articles: seq<Article>, a: Article)
    requires NewestFirst(articles) && DistinctIds(articles)
    requires forall b :: b in articles ==> b.id != a.id
    ensures DistinctIds(InsertNewestFirst(articles, a))
  {
    var p := AtLeastAsNew(articles, a);
    var r := InsertNewestFirst(articles, a);
    assert r == articles[..p] + [a] + articles[p..];
    assert forall i :: 0 <= i < p ==> r[i] == articles[i];
    assert r[p] == a;
    assert forall i :: p < i < |r| ==> r[i] == articles[i - 1];
    forall i, j | 0 <= i < j < |r|
      ensures r[i].id != r[j].id
    {
      if i < p && j < p {
        assert r[i] == articles[i] && r[j] == articles[j];
      } else if i < p && j == p {
        assert r[i] == articles[i] && r[i] in articles;
      } else if i < p {
        assert r[i] == articles[i] && r[j] == articles[j - 1];
      } else if i == p {
        assert r[j] == articles[j - 1] && r[j] in articles;
      } else {
        assert r[i] == articles[i - 1] && r[j] == articles[j - 1];
      }
    }
  }

  /**
    `articles` lists, newest first, exactly the articles stored under the
    keys in `listed`, each once.
   */
  ghost predicate ListsExactly(store: Store, listed: set<ArticleId>, articles: seq<Article>) {
    && listed <= store.Keys
    && |articles| == |listed|
    && NewestFirst(articles)
    && DistinctIds(articles)
    && forall a :: a in articles <==> a.id in listed && store[a.id] == a
  }

  /** Adding the article under one more key keeps `ListsExactly`. */
  lemma ListOneMore(store: Store, listed: set<ArticleId>, articles: seq<Article>, k: ArticleId)
    requires ListsExactly(store, listed, articles)
    requires k in store && k !in listed
    ensures ListsExactly(store, listed + {k}, InsertNewestFirst(articles, store[k]))
  {
    var a := store[k];
    assert forall b :: b in articles ==> b.id != a.id;
    InsertKeepsIdsDistinct(articles, a);
  }

  /** Once every key is listed, the listing holds each stored article exactly once. */
  lemma ListedAll(store: Store, listed: set<ArticleId>, articles: seq<Article>)
    requires ListsExactly(store, listed, articles) && listed == store.Keys
    ensures NewestFirst(articles) && DistinctIds(articles)
    ensures |articles| == |store|
    ensures forall a :: a in articles <==> a.id in store && store[a.id] == a
  {
  }

  /**
    `GET /api/articles`: every stored article exactly once, newest first.
    Articles with equal `createdAt` may come in any order. A failing query is a 500.
   */
  method List(store: Store, faults: Faults) returns (r: Reply)
    ensures r.store == store
    ensures r.status in {OK, SERVER_ERROR}
    ensures r.status == SERVER_ERROR <==> faults.read
    ensures r.status == OK ==>
      && r.body.ArticlesBody?
      && NewestFirst(r.body.articles)
      && DistinctIds(r.body.articles)
      && |r.body.articles| == |store|
      && (forall a :: a in r.body.articles <==> a.id in store && store[a.id] == a)
  {
    if faults.read {
      return ServerError(store);
    }
    var listed: set<ArticleId> := {};
    var articles: seq<Article> := [];
    while listed != store.Keys
      invariant ListsExactly(store, listed, articles)
      decreases store.Keys - listed
    {
      assert store.Keys - listed != {};
      var k :| k in store.Keys - listed;
      ListOneMore(store, listed, articles, k);
      articles := InsertNewestFirst(articles, store[k]);
      listed := listed + {k};
    }
    ListedAll(store, listed, articles);
    return Reply(OK, ArticlesBody(articles), store);
  }

  /**
    `GET /api/articles/:slug`: 200 with an article carrying that slug, 404 when
    none does. Only a failing query gives 500. In a valid store the article is
    the unique one with that slug.
   */
  method GetBySlug(store: Store, faults: Faults, slug: string) returns (r: Reply)
    ensures r.store == store
    ensures r.status in {OK, NOT_FOUND, SERVER_ERROR}
    ensures r.status == SERVER_ERROR <==> faults.read
    ensures !faults.read ==> (r.status == NOT_FOUND <==> forall k :: k in store ==> store[k].slug != slug)
    ensures r.status == OK ==>
      && r.body.ArticleBody?
      && r.body.article.slug == slug
      && r.body.article in store.Values
    ensures r.status == OK && ValidStore(store) ==>
      forall k :: k in store && store[k].slug == slug ==> r.body.article == store[k]
  {
    if faults.read {
      return ServerError(store);
    }
    var rest := store.Keys;
    while rest != {}
      invariant rest <= store.Keys
      invariant forall k :: k in store && k !in rest ==> store[k].slug != slug
      decreases rest
    {
      var k :| k in rest;
      if store[k].slug == slug {
        return Reply(OK, ArticleBody(store[k]), store);
      }
      rest := rest - {k};
    }
    return NotFound(store);
  }

  /** Every check `update` makes passes, stated on the request and the collection alone. */
  predicate UpdateSucceeds(store: Store, env: Env, faults: Faults, caller: UserId, id: ArticleId,
                           input: UpdateInput) {
    && !faults.read && !faults.write && !faults.populate
    && id in store && store[id].author == caller
    && input.title.Some? && input.content.Some? && input.excerpt.Some?
    && |Trim(input.title.value)| > 0 && |input.content.value| > 0 && |input.excerpt.value| > 0
    && |env.slugify(input.title.value)| > 0
    && SlugFreeFor(store, env.slugify(input.title.value), id)
  }

  /**
    `after` is `before` edited by `update`: the named fields take the request's
    values (title trimmed, slug from the raw title, each tag trimmed), the
    save time is the new `updatedAt`, and `_id`, `author`, `coverImage`,
    `likes`, `comments` and `createdAt` are untouched.
   */
  predicate UpdatedFrom(before: Article, after: Article, env: Env, now: Time, input: UpdateInput) {
    && input.title.Some? && input.content.Some? && input.excerpt.Some?
    && after.title == Trim(input.title.value)
    && after.slug == env.slugify(input.title.value)
    && after.content == input.content.value
    && after.excerpt == input.excerpt.value
    && after.tags == TrimAll(input.tags)
    && after.updatedAt == now
    && after.id == before.id
    && after.author == before.author
    && after.coverImage == before.coverImage
    && after.likes == before.likes
    && after.comments == before.comments
    && after.createdAt == before.createdAt
  }

  /**
    `PUT /api/articles/:id`. Errors come in the order: failing lookup (500),
    unknown id (404), caller not the author (403), then anything thrown while
    editing or saving (500). Nothing is written unless the caller owns the
    article.
   */
  function Update(store: Store, env: Env, faults: Faults, caller: UserId, id: ArticleId, now: Time,
                  input: UpdateInput): (r: Reply)
    ensures r.status in {OK, FORBIDDEN, NOT_FOUND, SERVER_ERROR}
    ensures faults.read ==> r == ServerError(store)
    ensures !faults.read && id !in store ==> r == NotFound(store)
    ensures !faults.read && id in store && store[id].author != caller ==>
      r.status == FORBIDDEN && r.store == store
    ensures r.status == NOT_FOUND ==> id !in store
    ensures r.status == FORBIDDEN ==> id in store && store[id].author != caller
    ensures r.status == OK <==> UpdateSucceeds(store, env, faults, caller, id, input)
    ensures r.store != store ==>
      && id in store && store[id].author == caller
      && WritesOnly(store, r.store, id)
      && UpdatedFrom(store[id], r.store[id], env, now, input)
      && HasRequiredFields(r.store[id])
    ensures r.status == OK ==>
      && id in store && r.store.Keys == store.Keys
      && r.body == ArticleBody(r.store[id])
      && UpdatedFrom(store[id], r.store[id], env, now, input)
      && (forall k :: k in store && k != id ==> r.store[k] == store[k])
    ensures r.status == SERVER_ERROR && r.store != store ==> faults.populate
    ensures faults.write ==> r.store == store
    ensures faults.populate && UpdateSucceeds(store, env, faults.(populate := false), caller, id, input) ==>
      && r.status == SERVER_ERROR
      && WritesOnly(store, r.store, id)
      && UpdatedFrom(store[id], r.store[id], env, now, input)
    ensures ValidStore(store) ==> ValidStore(r.store)
  {
    if faults.read then ServerError(store)
    else if id !in store then NotFound(store)
    else
      var article := store[id];
      if article.author != caller then
        Reply(FORBIDDEN, MessageBody("Not authorized"), store)
      else if input.title.None? then
        ServerError(store)  // slugify throws on a non-string
      else
        var slug := env.slugify(input.title.value);
        if input.content.None? || input.excerpt.None? then
          ServerError(store)  // the required validator refuses an undefined field
        else
          var edited := article.(title := Trim(input.title.value), content := input.content.value,
                                 excerpt := input.excerpt.value, slug := slug, tags := TrimAll(input.tags));
          match Save(store, edited, false, now, faults.write)
          case Failure(_) => ServerError(store)
          case Success(saved) =>
            if faults.populate then ServerError(saved.store)
            else Reply(OK, ArticleBody(saved.doc), saved.store)
  }

  /** In a valid store, toggling a like on a stored article leaves its `likes` duplicate-free. */
  lemma TogglePreservesNoDupIfValid(store: Store, id: ArticleId, caller: UserId)
    requires id in store
    ensures ValidStore(store) ==> NoDup(Toggle(store[id].likes, caller))
  {
    if ValidStore(store) {
      TogglePreservesNoDup(store[id].likes, caller);
    }
  }

  /** `after` is `before` with the caller's like toggled and a fresh `updatedAt`; nothing else differs. */
  predicate LikeToggled(before: Article, after: Article, caller: UserId, now: Time) {
    && after.likes == Toggle(before.likes, caller)
    && after.updatedAt == now
    && after == before.(likes := after.likes, updatedAt := after.updatedAt)
  }

  /**
    `POST /api/articles/:id/like`: toggles the caller in `likes` and replies
    with the new `likes`. Unknown id is 404; only a failing database round
    trip gives 500.
   */
  function ToggleLike(store: Store, faults: Faults, caller: UserId, id: ArticleId, now: Time): (r: Reply)
    ensures r.status in {OK, NOT_FOUND, SERVER_ERROR}
    ensures faults.read ==> r == ServerError(store)
    ensures !faults.read && id !in store ==> r == NotFound(store)
    ensures r.status == NOT_FOUND ==> id !in store
    ensures r.store != store ==> r.status == OK
    ensures r.status == OK ==>
      && id in store && WritesOnly(store, r.store, id)
      && r.store.Keys == store.Keys
      && LikeToggled(store[id], r.store[id], caller, now)
      && r.body == LikesBody(r.store[id].likes)
    ensures !faults.read && id in store && faults.write ==> r == ServerError(store)
    ensures ValidStore(store) && !faults.read && !faults.write && id in store ==> r.status == OK
    ensures ValidStore(store) ==> ValidStore(r.store)
  {
    if faults.read then ServerError(store)
    else if id !in store then NotFound(store)
    else
      var article := store[id];
      TogglePreservesNoDupIfValid(store, id, caller);
      match Save(store, article.(likes := Toggle(article.likes, caller)), false, now, faults.write)
      case Failure(_) => ServerError(store)
      case Success(saved) => Reply(OK, LikesBody(saved.doc.likes), saved.store)
  }

  /**
    `after` is `before` with one comment by `caller`, created at `now`,
    appended after the old ones, and a fresh `updatedAt`; nothing else differs.
   */
  predicate CommentAppended(before: Article, after: Article, caller: UserId, content: Option<string>, now: Time) {
    && |after.comments| == |before.comments| + 1
    && before.comments < after.comments
    && after.comments[|before.comments|] == Comment(caller, content, now)
    && after.updatedAt == now
    && after == before.(comments := after.comments, updatedAt := after.updatedAt)
  }

  /**
    `POST /api/articles/:id/comments`: appends the caller's comment and
    replies with the whole comment list. Unknown id is 404; a failing database
    round trip is 500 (after a successful save, the comment stays).
   */
  function AddComment(store: Store, faults: Faults, caller: UserId, id: ArticleId, now: Time,
                      content: Option<string>): (r: Reply)
    ensures r.status in {OK, NOT_FOUND, SERVER_ERROR}
    ensures faults.read ==> r == ServerError(store)
    ensures !faults.read && id !in store ==> r == NotFound(store)
    ensures r.status == NOT_FOUND ==> id !in store
    ensures r.store != store ==>
      && id in store && WritesOnly(store, r.store, id)
      && r.store.Keys == store.Keys
      && CommentAppended(store[id], r.store[id], caller, content, now)
    ensures r.status == OK ==>
      && id in store && r.store != store
      && r.body == CommentsBody(r.store[id].comments)
    ensures !faults.read && id in store && faults.write ==> r == ServerError(store)
    ensures ValidStore(store) && !faults.read && !faults.write && faults.populate && id in store ==>
      r.status == SERVER_ERROR && r.store != store
    ensures ValidStore(store) && !faults.read && !faults.write && !faults.populate && id in store ==>
      r.status == OK
    ensures ValidStore(store) ==> ValidStore(r.store)
  {
    if faults.read then ServerError(store)
    else if id !in store then NotFound(store)
    else
      var article := store[id];
      var comment := Comment(caller, content, now);
      match Save(store, article.(comments := article.comments + [comment]), false, now, faults.write)
      case Failure(_) => ServerError(store)
      case Success(saved) =>
        if faults.populate then ServerError(saved.store)
        else Reply(OK, CommentsBody(saved.doc.comments), saved.store)
  }

  /** In a valid store a successful like flips whether the caller likes the article. */
  lemma ToggleLikeFlipsMembership(store: Store, faults: Faults, caller: UserId, id: ArticleId, now: Time)
    requires ValidStore(store)
    ensures var r := ToggleLike(store, faults, caller, id, now);
      r.status == OK ==> (caller in r.store[id].likes <==> caller !in store[id].likes)
  {
    if id in store {
      ToggleFlipsMembership(store[id].likes, caller);
    }
  }

  /** Liking twice, starting from not liking, gives back exactly the original `likes`. */
  lemma LikeTwiceFromAbsentRestores(store: Store, f1: Faults, f2: Faults, caller: UserId, id: ArticleId,
                                    t1: Time, t2: Time)
    requires id in store && caller !in store[id].likes
    ensures var r1 := ToggleLike(store, f1, caller, id, t1);
      var r2 := ToggleLike(r1.store, f2, caller, id, t2);
      r1.status == OK && r2.status == OK ==>
        r2.store[id].likes == store[id].likes && r2.body == LikesBody(store[id].likes)
  {
    ToggleTwiceFromAbsent(store[id].likes, caller);
  }

  /**
    Liking twice, starting from liking, in a valid store gives back the same
    users, with the caller moved to the end.
   */
  lemma LikeTwiceFromPresentReorders(store: Store, f1: Faults, f2: Faults, caller: UserId, id: ArticleId,
                                     t1: Time, t2: Time)
    requires ValidStore(store) && id in store && caller in store[id].likes
    ensures var r1 := ToggleLike(store, f1, caller, id, t1);
      var r2 := ToggleLike(r1.store, f2, caller, id, t2);
      r1.status == OK && r2.status == OK ==>
        && multiset(r2.store[id].likes) == multiset(store[id].likes)
        && r2.store[id].likes == RemoveAt(store[id].likes, IndexOf(store[id].likes, caller)) + [caller]
  {
    ToggleTwiceFromPresent(store[id].likes, caller);
  }

  /** Creating twice with titles that slugify alike: the second create never succeeds. */
  lemma SecondCreateWithSameSlugFails(store: Store, env: Env, f1: Faults, f2: Faults, caller1: UserId,
                                      caller2: UserId, id1: ArticleId, id2: ArticleId, t1: Time, t2: Time,
                                      in1: CreateInput, in2: CreateInput)
    requires in1.title.Some? && in2.title.Some?
    requires env.slugify(in1.title.value) == env.slugify(in2.title.value)
    ensures var r1 := Create(store, env, f1, caller1, id1, t1, in1);
      r1.status == CREATED ==> Create(r1.store, env, f2, caller2, id2, t2, in2).status != CREATED
  {
    var r1 := Create(store, env, f1, caller1, id1, t1, in1);
    if r1.status == CREATED && id1 != id2 {
      assert r1.store[id1].slug == env.slugify(in2.title.value);
      assert !SlugFreeFor(r1.store, env.slugify(in2.title.value), id2);
    }
  }

  /**
    A title that is empty or all whitespace trims to the empty string, which
    the required validator refuses: `create` stores nothing.
   */
  lemma BlankTitleNeverCreates(store: Store, env: Env, faults: Faults, caller: UserId, newId: ArticleId,
                               now: Time, input: CreateInput)
    requires input.title.Some? && AllWhitespace(input.title.value)
    ensures var r := Create(store, env, faults, caller, newId, now, input);
      r.status != CREATED && r.store == store
  {
    TrimEmptyIffAllWhitespace(input.title.value);
  }

  /** One request to the article router. */
  datatype Request =
    | CreateArticle(create: CreateInput)
    | ListArticles
    | GetArticle(slug: string)
    | UpdateArticle(id: ArticleId, update: UpdateInput)
    | LikeArticle(id: ArticleId)
    | CommentOnArticle(id: ArticleId, content: Option<string>)

  /**
    The router: dispatches a request to its handler. Every handler keeps the
    store invariant, and the two reads leave the collection as it was.
    `newId` is the `_id` the driver generates for a new document.
   */
  method Handle(store: Store, env: Env, faults: Faults, caller: UserId, newId: ArticleId, now: Time,
                request: Request) returns (r: Reply)
    requires ValidStore(store)
    ensures ValidStore(r.store)
    ensures request.ListArticles? || request.GetArticle? ==> r.store == store
    ensures r.status in {OK, CREATED, BAD_REQUEST, FORBIDDEN, NOT_FOUND, SERVER_ERROR}
    ensures r.status == CREATED ==> request.CreateArticle?
    ensures r.status == BAD_REQUEST ==> request.CreateArticle? && BadCoverImage(request.create.coverImage)
    ensures r.status == FORBIDDEN ==>
      request.UpdateArticle? && request.id in store && store[request.id].author != caller
  {
    match request
    case CreateArticle(input) =>
      r := Create(store, env, faults, caller, newId, now, input);
    case ListArticles =>
      r := List(store, faults);
    case GetArticle(slug) =>
      r := GetBySlug(store, faults, slug);
    case UpdateArticle(id, input) =>
      r := Update(store, env, faults, caller, id, now, input);
    case LikeArticle(id) =>
      r := ToggleLike(store, faults, caller, id, now);
    case CommentOnArticle(id, content) =>
      r := AddComment(store, faults, caller, id, now, content);
  }
}
