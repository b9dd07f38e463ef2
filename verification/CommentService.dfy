/** The comment services and the public list handler in front of the store. */
module CommentService {
  import opened Base
  import opened Texts
  import opened Scanners
  import opened Manifest
  import opened Registry
  import opened Database
  import opened CommentStore
  import opened Pagination

  /** The configurable limits; the page sizes are constants of the configuration. */
  datatype Limits = Limits(maxAuthorChars: int, maxCommentChars: int, maxCommentsPerPost: int)

  datatype ServiceError =
    | InvalidSlug
    | ContentNotFound
    | CommentsDisabled
    | InvalidAuthor
    | InvalidBody
    | InvalidCursor
    | InvalidStatus
    | InvalidAuditActor
    | UnknownComment
    | FullPost
    | NoComments

  /** Nonempty valid UTF-8 of at most `maximum` characters. */
  predicate ValidText(value: Text, maximum: int) {
    value != [] && ValidUtf8(value) && |value| <= maximum
  }

  predicate ValidAuditContext(context: AuditContext) {
    1 <= ByteLen(context.actor) <= 255 && ByteLen(context.requestId) <= 128
  }

  function Trimmed(input: CreateInput): CreateInput {
    input.(author := TrimSpace(input.author), body := TrimSpace(input.body))
  }

  /** `RequireCommentsEnabled`: why a post does not take part in comments, if it does not. */
  ghost function CommentsRefusal(t: Table, slug: Text): Option<ServiceError> {
    if !Bounded(SLUG, MAX_SLUG_CHARS, slug) then Some(InvalidSlug)
    else if slug !in t || t[slug].status != Published then Some(ContentNotFound)
    else if !t[slug].commentsEnabled then Some(CommentsDisabled)
    else None
  }

  /** Why a creation is refused, if it is: the first guard that fails, in the order policy,
      author, body, cap. */
  ghost function CreateRefusal(db: Db, limits: Limits, original: CreateInput): Option<ServiceError> {
    var policy := CommentsRefusal(db.registry, original.slug);
    if policy.Some? then policy
    else if !ValidText(Trimmed(original).author, limits.maxAuthorChars) then Some(InvalidAuthor)
    else if !ValidText(Trimmed(original).body, limits.maxCommentChars) then Some(InvalidBody)
    else if VisibleCount(db, original.slug) >= limits.maxCommentsPerPost then Some(FullPost)
    else None
  }

  predicate PageInRange(beforeId: int, limit: int) {
    0 <= beforeId && 0 <= limit <= MAXIMUM_PAGE_SIZE
  }

  /** Why a public listing is refused, if it is: out-of-range parameters before the policy. */
  ghost function ListRefusal(t: Table, slug: Text, beforeId: int, limit: int): Option<ServiceError> {
    if !PageInRange(beforeId, limit) then Some(InvalidCursor) else CommentsRefusal(t, slug)
  }

  /** Why a hide or unhide is refused, if it is. */
  ghost function ModerateRefusal(db: Db, limits: Limits, id: int, desired: Visibility, context: AuditContext): Option<ServiceError> {
    if id <= 0 then Some(UnknownComment)
    else if !ValidAuditContext(context) then Some(InvalidAuditActor)
    else if id !in db.comments then Some(UnknownComment)
    else if db.comments[id].status != desired == Visible && VisibleCount(db, db.comments[id].slug) >= limits.maxCommentsPerPost
    then Some(FullPost)
    else None
  }

  /** The moderation filter that a status parameter names; the empty one selects all. */
  function StatusFilter(status: Text): Option<Option<Visibility>> {
    if status == [] then Some(None)
    else if status == Str("visible") then Some(Some(Visible))
    else if status == Str("hidden") then Some(Some(Hidden))
    else None
  }

  class Service {
    const store: Store
    const limits: Limits

    constructor (store: Store, limits: Limits)
      ensures this.store == store && this.limits == limits
    {
      this.store := store;
      this.limits := limits;
    }

    method RequireCommentsEnabled(slug: Text) returns (error: Option<ServiceError>)
      ensures error == CommentsRefusal(store.registry, slug)
      ensures error == Some(InvalidSlug) <==> !Bounded(SLUG, 100, slug)
      ensures error == Some(ContentNotFound) <==>
        Bounded(SLUG, 100, slug) && !(slug in store.registry && store.registry[slug].status == Published)
      ensures error == Some(CommentsDisabled) <==>
        && Bounded(SLUG, 100, slug) && slug in store.registry && store.registry[slug].status == Published
        && !store.registry[slug].commentsEnabled
      ensures error.Some? ==> error.value in {InvalidSlug, ContentNotFound, CommentsDisabled}
    {
      var ok := ValidSlug(slug);
      if !ok {
        return Some(InvalidSlug);
      }
      if slug !in store.registry || store.registry[slug].status != Published {
        return Some(ContentNotFound);
      }
      if !store.registry[slug].commentsEnabled {
        return Some(CommentsDisabled);
      }
      return None;
    }

    /** Validation first, then the store's atomic creation of the trimmed input; every error
        leaves the tables unchanged. */
    method Create(original: CreateInput) returns (result: Result<Comment, ServiceError>)
      requires store.Valid()
      modifies store
      ensures store.Valid()
      ensures result.Err? ==> store.Rows() == old(store.Rows())
      ensures result.Err? ==> Some(result.error) == CreateRefusal(old(store.Rows()), limits, original)
      ensures result.Ok? <==>
        && Bounded(SLUG, 100, original.slug) && original.slug in old(store.registry)
        && old(store.registry)[original.slug].status == Published && old(store.registry)[original.slug].commentsEnabled
        && TrimSpace(original.author) != [] && |TrimSpace(original.author)| <= limits.maxAuthorChars
        && (forall g :: g in TrimSpace(original.author) ==> g.Rune?)
        && TrimSpace(original.body) != [] && |TrimSpace(original.body)| <= limits.maxCommentChars
        && (forall g :: g in TrimSpace(original.body) ==> g.Rune?)
        && |set id | id in old(store.comments) && old(store.comments)[id].slug == original.slug
                     && old(store.comments)[id].status == Visible| < limits.maxCommentsPerPost
      ensures result.Ok? ==>
        && result.value == Comment(old(store.nextComment), original.slug, TrimSpace(original.author), TrimSpace(original.body),
                                   original.visitor, Visible, None)
        && store.Rows() == Db(old(store.registry), old(store.comments)[old(store.nextComment) := result.value], old(store.audit))
    {
      VisibleCountMeaning(store.Rows(), original.slug);
      var refusal := RequireCommentsEnabled(original.slug);
      if refusal.Some? {
        return Err(refusal.value);
      }
      var input := original;
      input := input.(author := TrimSpace(input.author));
      if !ValidText(input.author, limits.maxAuthorChars) {
        return Err(InvalidAuthor);
      }
      input := input.(body := TrimSpace(input.body));
      if !ValidText(input.body, limits.maxCommentChars) {
        return Err(InvalidBody);
      }
      var outcome := store.CreateVisibleIfUnderLimit(input, limits.maxCommentsPerPost);
      match outcome {
        case Created(comment) => return Ok(comment);
        case Unavailable => return Err(NoComments);
        case _ => return Err(FullPost);
      }
    }

    /** The public page: bounds on cursor and limit, the comment policy, the default size. */
    method ListVisible(postSlug: Text, beforeId: int, limit: int) returns (result: Result<seq<Comment>, ServiceError>)
      requires store.Valid()
      ensures result.Ok? <==> PageInRange(beforeId, limit) && CommentsRefusal(store.registry, postSlug).None?
      ensures result.Err? ==> Some(result.error) == ListRefusal(store.registry, postSlug, beforeId, limit)
      ensures result.Ok? ==>
        IsPage(store.Rows(), VisibleOf(postSlug), beforeId, EffectiveLimit(limit), result.value)
      ensures result.Ok? <==>
        && 0 <= beforeId && 0 <= limit <= 100 && Bounded(SLUG, 100, postSlug)
        && postSlug in store.registry && store.registry[postSlug].status == Published && store.registry[postSlug].commentsEnabled
      ensures result.Ok? ==>
        IsPublicPage(store.comments, postSlug, beforeId, if limit == 0 then 25 else limit, result.value)
    {
      if beforeId < 0 || limit < 0 || limit > MAXIMUM_PAGE_SIZE {
        return Err(InvalidCursor);
      }
      var refusal := RequireCommentsEnabled(postSlug);
      if refusal.Some? {
        return Err(refusal.value);
      }
      var page := store.ListVisible(postSlug, beforeId, EffectiveLimit(limit));
      return Ok(page);
    }

    /** The moderation page: a known status filter, the same bounds and default size, and no
        comment policy. */
    method ListForModeration(status: Text, beforeId: int, limit: int) returns (result: Result<seq<Comment>, ServiceError>)
      requires store.Valid()
      ensures result.Ok? <==> StatusFilter(status).Some? && PageInRange(beforeId, limit)
      ensures result.Ok? ==>
        IsPage(store.Rows(), WithStatus(StatusFilter(status).value), beforeId, EffectiveLimit(limit), result.value)
      ensures result.Ok? <==>
        status in {[], Str("visible"), Str("hidden")} && 0 <= beforeId && 0 <= limit <= 100
      ensures result.Ok? ==>
        var named := if status == Str("visible") then Some(Visible) else if status == Str("hidden") then Some(Hidden) else None;
        IsModerationPage(store.comments, named, beforeId, if limit == 0 then 25 else limit, result.value)
      ensures result.Err? ==> result.error == if StatusFilter(status).None? then InvalidStatus else InvalidCursor
    {
      var filter := StatusFilter(status);
      if filter.None? {
        return Err(InvalidStatus);
      }
      if beforeId < 0 || limit < 0 || limit > MAXIMUM_PAGE_SIZE {
        return Err(InvalidCursor);
      }
      var page := store.ListForModeration(filter.value, beforeId, EffectiveLimit(limit));
      return Ok(page);
    }

    /** `Hide` and `Unhide`: the guards, then the store's atomic transition. */
    method Moderate(id: int, desired: Visibility, context: AuditContext, now: int) returns (result: Result<Comment, ServiceError>)
      requires store.Valid()
      modifies store
      ensures store.Valid()
      ensures result.Err? ==> store.Rows() == old(store.Rows())
      ensures result.Err? ==> Some(result.error) == ModerateRefusal(old(store.Rows()), limits, id, desired, context)
      ensures result.Ok? <==>
        && id > 0 && 1 <= ByteLen(context.actor) <= 255 && ByteLen(context.requestId) <= 128 && id in old(store.comments)
        && (old(store.comments)[id].status == desired || desired == Hidden
            || VisibleCount(old(store.Rows()), old(store.comments)[id].slug) < limits.maxCommentsPerPost)
      ensures result.Ok? ==>
        AtomicSetVisibility(old(store.Rows()), id, desired, limits.maxCommentsPerPost, context, Given(0, old(store.nextAudit), now))
        == (store.Rows(), Moderated(result.value))
      ensures result.Ok? && old(store.comments)[id].status == desired ==>
        result.value == old(store.comments)[id] && store.Rows() == old(store.Rows())
      ensures result.Ok? && old(store.comments)[id].status != desired ==>
        && result.value == old(store.comments)[id].(status := desired, hiddenAt := if desired == Hidden then Some(now) else None)
        && store.comments == old(store.comments)[id := result.value] && store.registry == old(store.registry)
        && store.audit == old(store.audit) +
           [AuditEvent(old(store.nextAudit), if desired == Visible then CommentUnhide else CommentHide, context.actor,
                       if context.requestId == [] then None else Some(context.requestId),
                       id, old(store.comments)[id].status, desired)]
    {
      if id <= 0 {
        return Err(UnknownComment);
      }
      if !ValidAuditContext(context) {
        return Err(InvalidAuditActor);
      }
      var outcome := store.SetVisibility(id, desired, limits.maxCommentsPerPost, context, now);
      match outcome {
        case Moderated(comment) => return Ok(comment);
        case NotFound => return Err(UnknownComment);
        case _ => return Err(FullPost);
      }
    }
  }
}
