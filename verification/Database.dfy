/** The database rows that comment creation, moderation and registry synchronisation share,
    and each operation as one atomic step: the sequential specification. */
module Database {
  import opened Base
  import opened Texts
  import opened Manifest
  import opened Registry

  datatype Visibility = Visible | Hidden

  datatype Comment = Comment(
    id: int, slug: Text, author: Text, body: Text, visitor: VisitorHash, status: Visibility, hiddenAt: Option<int>)

  datatype EventType = CommentHide | CommentUnhide

  datatype AuditEvent = AuditEvent(
    id: int, eventType: EventType, actor: Text, requestId: Option<Text>, commentId: int,
    previous: Visibility, next: Visibility)

  datatype CreateInput = CreateInput(slug: Text, author: Text, body: Text, visitor: VisitorHash)

  datatype AuditContext = AuditContext(actor: Text, requestId: Text)

  /** Committed rows. Comments are keyed by id; audit events are in commit order. */
  datatype Db = Db(registry: Table, comments: map<int, Comment>, audit: seq<AuditEvent>)

  datatype Call =
    | Create(input: CreateInput, cap: int)
    | SetVisibility(id: int, desired: Visibility, cap: int, context: AuditContext)
    | Sync(snapshot: Snapshot)

  datatype Outcome =
    | Created(comment: Comment)
    | Unavailable
    | PostFull
    | NotFound
    | Moderated(comment: Comment)
    | InvalidManifest
    | OwnedBySomeoneElse(slug: Text)
    | SyncDone(changed: nat, archived: nat)
    | RolledBack

  /** What the database supplies to a statement: identity values and the clock. */
  datatype Given = Given(commentId: int, auditId: int, now: int)

  function VisibleIds(db: Db, slug: Text): set<int> {
    set id | id in db.comments && db.comments[id].slug == slug && db.comments[id].status == Visible
  }

  function VisibleCount(db: Db, slug: Text): nat {
    |VisibleIds(db, slug)|
  }

  predicate Commentable(db: Db, slug: Text) {
    slug in db.registry && AcceptsComments(db.registry[slug])
  }

  function NewComment(input: CreateInput, id: int): Comment {
    Comment(id, input.slug, input.author, input.body, input.visitor, Visible, None)
  }

  function WithVisibility(c: Comment, desired: Visibility, now: int): Comment {
    c.(status := desired, hiddenAt := if desired == Hidden then Some(now) else None)
  }

  function NewEvent(c: Comment, desired: Visibility, context: AuditContext, id: int): AuditEvent {
    AuditEvent(id, if desired == Visible then CommentUnhide else CommentHide, context.actor,
               if context.requestId == [] then None else Some(context.requestId), c.id, c.status, desired)
  }

  /** `Atomic(db, call, given)` is the whole call executed in one indivisible step. */
  ghost function Atomic(db: Db, call: Call, given: Given): (Db, Outcome) {
    match call
    case Create(input, cap) => AtomicCreate(db, input, cap, given.commentId)
    case SetVisibility(id, desired, cap, context) => AtomicSetVisibility(db, id, desired, cap, context, given)
    case Sync(snapshot) => AtomicSync(db, snapshot)
  }

  function AtomicCreate(db: Db, input: CreateInput, cap: int, id: int): (Db, Outcome) {
    if !Commentable(db, input.slug) then (db, Unavailable)
    else if VisibleCount(db, input.slug) >= cap then (db, PostFull)
    else
      var row := NewComment(input, id);
      (db.(comments := db.comments[id := row]), Created(row))
  }

  function AtomicSetVisibility(db: Db, id: int, desired: Visibility, cap: int, context: AuditContext, given: Given): (Db, Outcome) {
    if id !in db.comments then (db, NotFound)
    else
      var current := db.comments[id];
      if current.status == desired then (db, Moderated(current))
      else if desired == Visible && VisibleCount(db, current.slug) >= cap then (db, PostFull)
      else
        var updated := WithVisibility(current, desired, given.now);
        var event := NewEvent(current, desired, context, given.auditId);
        (db.(comments := db.comments[id := updated], audit := db.audit + [event]), Moderated(updated))
  }

  ghost function AtomicSync(db: Db, snapshot: Snapshot): (Db, Outcome) {
    if !ValidSnapshot(snapshot) then (db, InvalidManifest)
    else
      var t, source, items := db.registry, snapshot.source, snapshot.items;
      if NoConflict(t, source, items)
      then (db.(registry := Synced(t, source, items)),
            SyncDone(|ChangedSlugs(t, source, items)|, |AbsentSlugs(t, source, items)|))
      else (db, OwnedBySomeoneElse(items[FirstConflictIndex(t, source, items)].slug))
  }

  ghost function FirstConflictIndex(t: Table, source: Text, items: seq<Item>): (i: nat)
    requires !NoConflict(t, source, items)
    ensures FirstConflict(t, source, items, i)
  {
    if NoConflict(t, source, items[..|items| - 1])
    then assert items == items[..|items| - 1] + [items[|items| - 1]]; |items| - 1
    else
      var i := FirstConflictIndex(t, source, items[..|items| - 1]);
      assert items[..|items| - 1][..i] == items[..i];
      i
  }

  /** What a count of visible comments counts. */
  lemma VisibleCountMeaning(db: Db, slug: Text)
    ensures VisibleCount(db, slug) ==
            |set id | id in db.comments && db.comments[id].slug == slug && db.comments[id].status == Visible|
  {
    assert VisibleIds(db, slug) == set id | id in db.comments && db.comments[id].slug == slug && db.comments[id].status == Visible;
  }

  lemma FirstConflictIsUnique(t: Table, source: Text, items: seq<Item>, i: nat, j: nat)
    requires FirstConflict(t, source, items, i) && FirstConflict(t, source, items, j)
    ensures i == j
  {
  }

  /** The committed audit trail of one comment, in commit order. */
  function EventsOf(audit: seq<AuditEvent>, id: int): seq<AuditEvent> {
    if audit == [] then []
    else
      var rest, last := EventsOf(audit[..|audit| - 1], id), audit[|audit| - 1];
      if last.commentId == id then rest + [last] else rest
  }

  /** The trail replayed from "visible": `None` as soon as an event does not continue the
      state its predecessors reached, or does not change it. */
  function Replay(events: seq<AuditEvent>): Option<Visibility> {
    if events == [] then Some(Visible)
    else
      var last := events[|events| - 1];
      if Replay(events[..|events| - 1]) == Some(last.previous) && last.previous != last.next
         && last.eventType == (if last.next == Hidden then CommentHide else CommentUnhide)
      then Some(last.next) else None
  }

  predicate IdsAscend(events: seq<AuditEvent>) {
    forall i, j :: 0 <= i < j < |events| ==> events[i].id < events[j].id
  }

  /** What the tables satisfy between transactions, given the next identity values. */
  ghost predicate Consistent(db: Db, nextComment: int, nextAudit: int) {
    && (forall id :: id in db.comments ==> CommentConsistent(db, nextComment, id))
    && (forall n :: 0 <= n < |db.audit| ==> db.audit[n].id < nextAudit && db.audit[n].commentId in db.comments)
  }

  ghost predicate CommentConsistent(db: Db, nextComment: int, id: int)
    requires id in db.comments
  {
    var c := db.comments[id];
    && c.id == id && 0 < id < nextComment
    && c.slug in db.registry
    && (c.status == Hidden <==> c.hiddenAt.Some?)
    && Replay(EventsOf(db.audit, id)) == Some(c.status)
    && IdsAscend(EventsOf(db.audit, id))
  }

  lemma {:induction false} EventsOfAppend(audit: seq<AuditEvent>, event: AuditEvent, id: int)
    ensures EventsOf(audit + [event], id) == EventsOf(audit, id) + (if event.commentId == id then [event] else [])
  {
  }

  lemma {:induction false} EventsAreFromTrail(audit: seq<AuditEvent>, id: int)
    ensures forall e :: e in EventsOf(audit, id) <==> e in audit && e.commentId == id
  {
    if audit != [] {
      var last := |audit| - 1;
      EventsAreFromTrail(audit[..last], id);
      assert audit == audit[..last] + [audit[last]];
    }
  }
}
