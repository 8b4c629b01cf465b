/**
  The article schema (`models/Article.js`): the stored record, what a save
  checks and sets, and the invariant every stored article satisfies.
 */
module ArticleModel {
  import opened Wrappers
  import opened Text
  import opened Likes

  /** A user reference, compared as the string form of its ObjectId. */
  type UserId = string
  /** An article's `_id`, the key it is stored under. */
  type ArticleId = string
  /** A timestamp in milliseconds, as `Date.now()` returns it. */
  type Time = int

  /** An entry of `comments`; its `content` is optional in the schema. */
  datatype Comment = Comment(user: UserId, content: Option<string>, createdAt: Time)

  /** A stored article document. `createdAt`/`updatedAt` come from `timestamps: true`. */
  datatype Article = Article(
    id: ArticleId,
    title: string,
    content: string,
    excerpt: string,
    slug: string,
    author: UserId,
    coverImage: Option<string>,
    tags: seq<string>,
    likes: seq<UserId>,
    comments: seq<Comment>,
    createdAt: Time,
    updatedAt: Time)

  /** Every key of a collection holds the document with that `_id`. */
  predicate KeysAreIds(m: map<ArticleId, Article>) {
    forall k :: k in m ==> m[k].id == k
  }

  /** The article collection: documents keyed by their `_id`. */
  type Store = m: map<ArticleId, Article> | KeysAreIds(m) witness map[]

  /**
    The `required: true` validators on `title`, `content`, `excerpt` and `slug`.
    A required String rejects both an undefined value and the empty string.
    `author` is required too; it is always present here because it is set
    from the authenticated caller.
   */
  predicate HasRequiredFields(a: Article) {
    |a.title| > 0 && |a.content| > 0 && |a.excerpt| > 0 && |a.slug| > 0
  }

  /** The `trim: true` setters on `title` and on every element of `tags` have run. */
  predicate SettersApplied(a: Article) {
    Trimmed(a.title) && forall i :: 0 <= i < |a.tags| ==> Trimmed(a.tags[i])
  }

  /** No article other than the one stored under `id` uses `slug` (the unique index). */
  predicate SlugFreeFor(store: Store, slug: string, id: ArticleId) {
    forall k :: k in store && k != id ==> store[k].slug != slug
  }

  /**
    What holds of every stored article: the validators passed, the setters ran,
    and no user likes it twice. The schema does not enforce the last one; the
    like toggle maintains it.
   */
  predicate ValidArticle(a: Article) {
    HasRequiredFields(a) && SettersApplied(a) && NoDup(a.likes)
  }

  /** The store invariant: every article is valid and slugs are unique. */
  predicate ValidStore(store: Store) {
    && (forall k :: k in store ==> ValidArticle(store[k]))
    && (forall k1, k2 :: k1 in store && k2 in store && k1 != k2 ==> store[k1].slug != store[k2].slug)
  }

  /** `b` is `a` with, at most, different timestamps. */
  predicate SameBesidesTimestamps(a: Article, b: Article) {
    a.(createdAt := b.createdAt, updatedAt := b.updatedAt) == b
  }

  /** `after` is `before` with the one article stored under `id` written; nothing else changed. */
  predicate WritesOnly(before: Store, after: Store, id: ArticleId) {
    && id in after
    && after.Keys == before.Keys + {id}
    && forall k :: k in before && k != id ==> after[k] == before[k]
  }

  /**
    Why a save is refused: a validator, an update whose `_id` matches no
    stored document, the unique indexes on `_id`/`slug`, or the database itself.
   */
  datatype SaveError = ValidationError | DocumentNotFound | DuplicateKey | WriteError

  /** A successful save: the new collection and the document as written. */
  datatype Saved = Saved(store: Store, doc: Article)

  /**
    `document.save()`. Validation runs first, then the write: an insert for a
    new document, otherwise an update by `_id` that fails when no stored
    document has that `_id`. The unique indexes on `_id` (for a new document)
    and `slug` can refuse the write, and it can fail on its own (`writeFails`). A successful save sets `createdAt` on a
    new document, refreshes `updatedAt`, and changes nothing else.
   */
  function Save(store: Store, doc: Article, isNew: bool, now: Time, writeFails: bool): (r: Result<Saved, SaveError>)
    ensures r.Success? <==>
      && HasRequiredFields(doc)
      && (isNew ==> doc.id !in store) && (!isNew ==> doc.id in store)
      && SlugFreeFor(store, doc.slug, doc.id) && !writeFails
    ensures r.Failure? && !HasRequiredFields(doc) ==> r.error == ValidationError
    ensures HasRequiredFields(doc) && !isNew && doc.id !in store ==> r == Failure(DocumentNotFound)
    ensures r.Success? ==>
      && WritesOnly(store, r.value.store, doc.id)
      && r.value.store[doc.id] == r.value.doc
      && SameBesidesTimestamps(doc, r.value.doc)
      && r.value.doc.updatedAt == now
      && r.value.doc.createdAt == (if isNew then now else doc.createdAt)
    ensures r.Success? && ValidStore(store) && SettersApplied(doc) && NoDup(doc.likes) ==>
      ValidStore(r.value.store)
  {
    if !HasRequiredFields(doc) then Failure(ValidationError)
    else if !isNew && doc.id !in store then Failure(DocumentNotFound)
    else if (isNew && doc.id in store) || !SlugFreeFor(store, doc.slug, doc.id) then Failure(DuplicateKey)
    else if writeFails then Failure(WriteError)
    else
      var written := doc.(createdAt := if isNew then now else doc.createdAt, updatedAt := now);
      Success(Saved(store[doc.id := written], written))
  }
}
