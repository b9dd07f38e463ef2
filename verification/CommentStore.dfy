/** The comment tables as one object, with the store's operations in the source's own
    step-by-step form, each proved to be the atomic operation of the specification. */
module CommentStore {
  import opened Base
  import opened Texts
  import opened Registry
  import opened Database
  import opened ProtocolInvariant

  /** The rows a page may draw from, for one post's public page or for moderation. */
  datatype Filter = VisibleOf(slug: Text) | WithStatus(status: Option<Visibility>)

  predicate Selects(filter: Filter, before: int, c: Comment) {
    && (match filter
        case VisibleOf(slug) => c.slug == slug && c.status == Visible
        case WithStatus(status) => status.None? || c.status == status.value)
    && (before == 0 || c.id < before)
  }

  /** `ORDER BY id DESC LIMIT n`: descending selected rows, nothing skipped, and short only
      when there is nothing left. */
  ghost predicate IsPage(db: Db, filter: Filter, before: int, limit: nat, page: seq<Comment>) {
    && |page| <= limit
    && (forall k :: 0 <= k < |page| ==> page[k].id in db.comments && db.comments[page[k].id] == page[k] && Selects(filter, before, page[k]))
    && (forall k, l :: 0 <= k < l < |page| ==> page[l].id < page[k].id)
    && (forall id :: id in db.comments && Selects(filter, before, db.comments[id]) && db.comments[id] !in page ==>
          |page| == limit && forall k :: 0 <= k < |page| ==> id < page[k].id)
  }

  /** The SQL semantics leave no freedom: a page is determined by the tables and the query. */
  lemma {:induction false} PageIsUnique(db: Db, filter: Filter, before: int, limit: nat, page: seq<Comment>, other: seq<Comment>)
    requires IsPage(db, filter, before, limit, page) && IsPage(db, filter, before, limit, other)
    ensures page == other
  {
    PagesAgree(db, filter, before, limit, page, other, |page|);
    PagesAgree(db, filter, before, limit, other, page, |other|);
  }

  lemma {:induction false} PagesAgree(db: Db, filter: Filter, before: int, limit: nat, page: seq<Comment>, other: seq<Comment>, n: nat)
    requires IsPage(db, filter, before, limit, page) && IsPage(db, filter, before, limit, other) && n <= |page|
    ensures n <= |other| && page[..n] == other[..n]
  {
    if n > 0 {
      PagesAgree(db, filter, before, limit, page, other, n - 1);
      NextAgrees(db, filter, before, limit, page, other, n - 1);
      assert page[..n] == page[..n - 1] + [page[n - 1]] && other[..n] == other[..n - 1] + [other[n - 1]];
    }
  }

  lemma NextAgrees(db: Db, filter: Filter, before: int, limit: nat, page: seq<Comment>, other: seq<Comment>, n: nat)
    requires IsPage(db, filter, before, limit, page) && IsPage(db, filter, before, limit, other)
    requires n < |page| && n <= |other| && page[..n] == other[..n]
    ensures n < |other| && page[n] == other[n]
  {
    NotShorter(db, filter, before, limit, page, other, n);
    forall k | 0 <= k < n ensures page[k] == other[k] {
      assert page[..n][k] == other[..n][k];
    }
    NotBelow(db, filter, before, limit, page, other, n);
    NotBelow(db, filter, before, limit, other, page, n);
  }

  /** A page does not end where another page of the same query goes on. */
  lemma NotShorter(db: Db, filter: Filter, before: int, limit: nat, page: seq<Comment>, other: seq<Comment>, n: nat)
    requires IsPage(db, filter, before, limit, page) && IsPage(db, filter, before, limit, other)
    requires n < |page| && n <= |other| && page[..n] == other[..n]
    ensures n < |other|
  {
    assert forall k :: 0 <= k < n ==> other[..n][k] == page[k];
    assert page[n] !in other[..n];
    assert other[..|other|] == other;
    assert Selects(filter, before, db.comments[page[n].id]);
  }

  /** After a common prefix, neither page goes on with an older row than the other. */
  lemma NotBelow(db: Db, filter: Filter, before: int, limit: nat, page: seq<Comment>, other: seq<Comment>, n: nat)
    requires IsPage(db, filter, before, limit, page) && IsPage(db, filter, before, limit, other)
    requires n < |page| && n < |other| && forall k :: 0 <= k < n ==> page[k] == other[k]
    ensures other[n].id >= page[n].id
  {
    assert forall m :: 0 <= m < n ==> page[n].id < other[m].id;
    if page[n] in other {
      var m :| 0 <= m < |other| && other[m] == page[n];
    }
  }

  /** The public query, test by test: visible rows of the post below the bound, newest first,
      none left out unless the page is full and ends above it. */
  ghost predicate IsPublicPage(comments: map<int, Comment>, slug: Text, before: int, size: nat, page: seq<Comment>) {
    && |page| <= size && (forall k, l :: 0 <= k < l < |page| ==> page[l].id < page[k].id)
    && (forall k :: 0 <= k < |page| ==>
          && page[k].id in comments && comments[page[k].id] == page[k]
          && page[k].slug == slug && page[k].status == Visible && (before == 0 || page[k].id < before))
    && (forall id :: id in comments && comments[id] !in page
                     && comments[id].slug == slug && comments[id].status == Visible && (before == 0 || id < before) ==>
          |page| == size && forall k :: 0 <= k < |page| ==> id < page[k].id)
  }

  /** The moderation query, test by test. */
  ghost predicate IsModerationPage(comments: map<int, Comment>, status: Option<Visibility>, before: int, size: nat, page: seq<Comment>) {
    && |page| <= size && (forall k, l :: 0 <= k < l < |page| ==> page[l].id < page[k].id)
    && (forall k :: 0 <= k < |page| ==>
          && page[k].id in comments && comments[page[k].id] == page[k]
          && (status.Some? ==> page[k].status == status.value) && (before == 0 || page[k].id < before))
    && (forall id :: id in comments && comments[id] !in page
                     && (status.Some? ==> comments[id].status == status.value) && (before == 0 || id < before) ==>
          |page| == size && forall k :: 0 <= k < |page| ==> id < page[k].id)
  }

  class Store {
    var registry: Table
    var comments: map<int, Comment>
    var audit: seq<AuditEvent>
    var nextComment: int
    var nextAudit: int

    ghost function Rows(): Db reads this {
      Db(registry, comments, audit)
    }

    ghost predicate Valid() reads this {
      nextComment > 0 && Consistent(Rows(), nextComment, nextAudit)
    }

    constructor (contentItems: Table)
      ensures Valid() && Rows() == Db(contentItems, map[], [])
    {
      registry, comments, audit, nextComment, nextAudit := contentItems, map[], [], 1, 1;
    }

    method CountVisible(slug: Text) returns (count: nat)
      ensures count == VisibleCount(Rows(), slug)
      ensures count == |set id | id in comments && comments[id].slug == slug && comments[id].status == Visible|
    {
      var ids := set id | id in comments && comments[id].slug == slug && comments[id].status == Visible;
      assert ids == VisibleIds(Rows(), slug);
      return |ids|;
    }

    method CreateVisibleIfUnderLimit(input: CreateInput, maxVisible: int) returns (outcome: Outcome)
      requires Valid()
      modifies this
      ensures Valid()
      ensures (Rows(), outcome) == AtomicCreate(old(Rows()), input, maxVisible, old(nextComment))
      ensures outcome.Created? ==>
        && outcome.comment == Comment(old(nextComment), input.slug, input.author, input.body, input.visitor, Visible, None)
        && Rows() == Db(old(registry), old(comments)[old(nextComment) := outcome.comment], old(audit))
        && NewestOfPost(old(Rows()), outcome.comment)
      ensures !outcome.Created? ==> Rows() == old(Rows())
    {
      if input.slug !in registry || !AcceptsComments(registry[input.slug]) {
        return Unavailable;
      }
      var visibleCount := CountVisible(input.slug);
      if visibleCount >= maxVisible {
        return PostFull;
      }
      ghost var before := Rows();
      var row := NewComment(input, nextComment);
      InsertKeepsConsistency(before, nextComment, nextAudit, row);
      comments := comments[nextComment := row];
      nextComment := nextComment + 1;
      return Created(row);
    }

    method SetVisibility(id: int, desired: Visibility, maxVisible: int, context: AuditContext, now: int) returns (outcome: Outcome)
      requires Valid()
      modifies this
      ensures Valid()
      ensures (Rows(), outcome) ==
              AtomicSetVisibility(old(Rows()), id, desired, maxVisible, context, Given(0, old(nextAudit), now))
      ensures !outcome.Moderated? ==> Rows() == old(Rows())
      ensures outcome.Moderated? ==> id in old(comments) && outcome.comment.status == desired
      ensures outcome.Moderated? && old(comments)[id].status == desired ==>
        outcome.comment == old(comments)[id] && Rows() == old(Rows())
      ensures outcome.Moderated? && old(comments)[id].status != desired ==>
        && outcome.comment == old(comments)[id].(status := desired, hiddenAt := if desired == Hidden then Some(now) else None)
        && comments == old(comments)[id := outcome.comment] && registry == old(registry)
        && audit == old(audit) +
           [AuditEvent(old(nextAudit), if desired == Visible then CommentUnhide else CommentHide, context.actor,
                       if context.requestId == [] then None else Some(context.requestId),
                       id, old(comments)[id].status, desired)]
    {
      if id !in comments {
        return NotFound;
      }
      var current := comments[id];
      if current.status == desired {
        return Moderated(current);
      }
      if desired == Visible {
        var visibleCount := CountVisible(current.slug);
        if visibleCount >= maxVisible {
          return PostFull;
        }
      }
      outcome := Transition(id, desired, context, now);
    }

    /** The update and its audit event, committed together. */
    method Transition(id: int, desired: Visibility, context: AuditContext, now: int) returns (outcome: Outcome)
      requires Valid() && id in comments && comments[id].status != desired
      modifies this
      ensures Valid()
      ensures var updated, event := WithVisibility(old(comments)[id], desired, now), NewEvent(old(comments)[id], desired, context, old(nextAudit));
        && outcome == Moderated(updated)
        && Rows() == Db(old(registry), old(comments)[id := updated], old(audit) + [event])
      ensures outcome.Moderated? &&
        outcome.comment == old(comments)[id].(status := desired, hiddenAt := if desired == Hidden then Some(now) else None)
      ensures comments == old(comments)[id := outcome.comment] && registry == old(registry)
      ensures audit == old(audit) +
        [AuditEvent(old(nextAudit), if desired == Visible then CommentUnhide else CommentHide, context.actor,
                    if context.requestId == [] then None else Some(context.requestId),
                    id, old(comments)[id].status, desired)]
    {
      var current := comments[id];
      var updated := WithVisibility(current, desired, now);
      var event := NewEvent(current, desired, context, nextAudit);
      ghost var after := Db(registry, comments[id := updated], audit + [event]);
      assert CommentConsistent(Rows(), nextComment, id);
      TransitionKeepsConsistency(Rows(), nextComment, nextAudit, id, desired, context, now, event);
      comments := comments[id := updated];
      audit := audit + [event];
      nextAudit := nextAudit + 1;
      assert Rows() == after;
      return Moderated(updated);
    }

    method ListVisible(postSlug: Text, beforeId: int, limit: nat) returns (page: seq<Comment>)
      requires Valid()
      ensures IsPage(Rows(), VisibleOf(postSlug), beforeId, limit, page)
      ensures IsPublicPage(comments, postSlug, beforeId, limit, page)
    {
      assert forall id :: id in comments ==> CommentConsistent(Rows(), nextComment, id);
      page := List(VisibleOf(postSlug), beforeId, limit);
    }

    method ListForModeration(status: Option<Visibility>, beforeId: int, limit: nat) returns (page: seq<Comment>)
      requires Valid()
      ensures IsPage(Rows(), WithStatus(status), beforeId, limit, page)
      ensures IsModerationPage(comments, status, beforeId, limit, page)
    {
      assert forall id :: id in comments ==> CommentConsistent(Rows(), nextComment, id);
      page := List(WithStatus(status), beforeId, limit);
    }

    /** The rows of the query, newest first, appended until the limit is reached. */
    method List(filter: Filter, beforeId: int, limit: nat) returns (page: seq<Comment>)
      requires Valid()
      ensures IsPage(Rows(), filter, beforeId, limit, page)
    {
      page := [];
      var rest := set id | id in comments && Selects(filter, beforeId, comments[id]);
      while |page| < limit && rest != {}
        invariant |page| <= limit && SplitPage(Rows(), filter, beforeId, rest, page)
        decreases |rest|
      {
        var id := Greatest(rest);
        assert CommentConsistent(Rows(), nextComment, id);
        PageGrows(Rows(), filter, beforeId, rest, page, id);
        page := page + [comments[id]];
        rest := rest - {id};
      }
    }
  }

  /** The selected rows are split: `page` holds the newest, descending, and `rest` the others. */
  ghost predicate SplitPage(db: Db, filter: Filter, before: int, rest: set<int>, page: seq<Comment>) {
    && (forall id :: id in rest ==> id in db.comments && Selects(filter, before, db.comments[id]))
    && (forall k :: 0 <= k < |page| ==> page[k].id in db.comments && db.comments[page[k].id] == page[k] && Selects(filter, before, page[k]))
    && (forall k, l :: 0 <= k < l < |page| ==> page[l].id < page[k].id)
    && (forall id :: id in db.comments && Selects(filter, before, db.comments[id]) ==> id in rest || db.comments[id] in page)
    && (forall id, k :: id in rest && 0 <= k < |page| ==> id < page[k].id)
  }

  lemma PageGrows(db: Db, filter: Filter, before: int, rest: set<int>, page: seq<Comment>, id: int)
    requires SplitPage(db, filter, before, rest, page) && id in rest && db.comments[id].id == id
    requires forall other :: other in rest ==> other <= id
    ensures SplitPage(db, filter, before, rest - {id}, page + [db.comments[id]])
  {
  }

  lemma InsertKeepsConsistency(db: Db, nextComment: int, nextAudit: int, row: Comment)
    requires Consistent(db, nextComment, nextAudit) && row.id == nextComment > 0
    requires row.slug in db.registry && row.status == Visible && row.hiddenAt.None?
    ensures NewestOfPost(db, row)
    ensures Consistent(db.(comments := db.comments[row.id := row]), nextComment + 1, nextAudit)
  {
    forall id | id in db.comments ensures id < nextComment { assert CommentConsistent(db, nextComment, id); }
    NoEventsBefore(db, nextComment, nextAudit, row.id);
    var db' := db.(comments := db.comments[row.id := row]);
    forall id | id in db'.comments ensures CommentConsistent(db', nextComment + 1, id) {
      if id != row.id { assert CommentConsistent(db, nextComment, id); }
    }
  }

  lemma TransitionKeepsConsistency(db: Db, nextComment: int, nextAudit: int, id: int, desired: Visibility, context: AuditContext, now: int, event: AuditEvent)
    requires Consistent(db, nextComment, nextAudit) && id in db.comments && db.comments[id].status != desired
    requires event == NewEvent(db.comments[id], desired, context, nextAudit)
    ensures var updated := WithVisibility(db.comments[id], desired, now);
      Consistent(db.(comments := db.comments[id := updated], audit := db.audit + [event]), nextComment, nextAudit + 1)
  {
    assert CommentConsistent(db, nextComment, id);
    EventsAreFromTrail(db.audit, id);
    assert NewestOfTrail(db, event);
    ConsistentLater(db, nextComment, nextAudit, nextComment, nextAudit + 1);
    TransitionIsConsistent(db, nextComment, nextAudit + 1, db.comments[id], desired, now, event);
  }
}
