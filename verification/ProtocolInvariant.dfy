/** What every reachable state of the protocol satisfies: the facts each session has read
    under its locks still hold in the committed tables. */
module ProtocolInvariant {
  import opened Base
  import opened Texts
  import opened Manifest
  import opened Registry
  import opened Database
  import opened Protocol

  /** An inserted but uncommitted comment is newer than every committed one of its post. */
  ghost predicate NewestOfPost(db: Db, row: Comment) {
    && row.id !in db.comments
    && forall id :: id in db.comments && db.comments[id].slug == row.slug ==> id < row.id
  }

  ghost predicate NewestOfTrail(db: Db, event: AuditEvent) {
    forall e :: e in EventsOf(db.audit, event.commentId) ==> e.id < event.id
  }

  function Clock(c: Comment): int {
    if c.hiddenAt.Some? then c.hiddenAt.value else 0
  }

  ghost predicate CreateOk(st: System, s: Session)
    requires s.Creating?
  {
    var post, share := PostLock(st.lockKey(s.input.slug)), RowShare(s.input.slug);
    match s.createPc
    case CreateBegun => s.locks == {}
    case PostLocked => s.locks == {post}
    case PolicyChecked => s.locks == {post, share} && Commentable(st.db, s.input.slug)
    case Counted => s.locks == {post, share} && Commentable(st.db, s.input.slug) && VisibleCount(st.db, s.input.slug) < s.cap
    case Inserted(row) =>
      && s.locks == {post, share} && Commentable(st.db, s.input.slug) && VisibleCount(st.db, s.input.slug) < s.cap
      && row == NewComment(s.input, row.id) && 0 < row.id < st.nextComment && NewestOfPost(st.db, row)
  }

  /** The moderated comment is still the one read FOR UPDATE. */
  ghost predicate HoldsComment(st: System, s: Session, slug: Text, current: Comment)
    requires s.Moderating?
  {
    && s.locks == {PostLock(st.lockKey(slug)), CommentRow(s.id)}
    && s.id in st.db.comments && st.db.comments[s.id] == current && current.slug == slug
  }

  /** The transition is needed and allowed. */
  ghost predicate MayMove(st: System, s: Session, slug: Text, current: Comment)
    requires s.Moderating?
  {
    && HoldsComment(st, s, slug, current)
    && current.status != s.desired
    && (s.desired == Visible ==> VisibleCount(st.db, slug) < s.cap)
  }

  ghost predicate ModerateOk(st: System, s: Session)
    requires s.Moderating?
  {
    match s.moderatePc
    case ModerateBegun => s.locks == {}
    case Found(slug) => s.locks == {} && s.id in st.db.comments && st.db.comments[s.id].slug == slug
    case Locked(slug) =>
      s.locks == {PostLock(st.lockKey(slug))} && s.id in st.db.comments && st.db.comments[s.id].slug == slug
    case AlreadyThere(slug, current) => HoldsComment(st, s, slug, current) && current.status == s.desired
    case MustCount(slug, current) => HoldsComment(st, s, slug, current) && current.status != s.desired && s.desired == Visible
    case MayUpdate(slug, current) => MayMove(st, s, slug, current)
    case Updated(slug, current, updated) =>
      MayMove(st, s, slug, current) && updated == WithVisibility(current, s.desired, Clock(updated))
    case Audited(slug, current, updated, event) =>
      && MayMove(st, s, slug, current) && updated == WithVisibility(current, s.desired, Clock(updated))
      && event == NewEvent(current, s.desired, s.context, event.id) && event.id < st.nextAudit && NewestOfTrail(st.db, event)
  }

  ghost predicate SyncLocksOk(s: Session, writes: Table)
    requires s.Syncing?
  {
    && ValidSnapshot(s.snapshot)
    && SyncLock in s.locks
    && (forall l :: l in s.locks ==> l.SyncLock? || l.RowUpdate?)
    && (forall slug :: slug in writes ==> RowUpdate(slug) in s.locks)
  }

  /** After `k` items the working view is the registry with exactly those items upserted. */
  ghost predicate PrefixDone(st: System, snapshot: Snapshot, k: nat, writes: Table, changed: nat) {
    var t, source, items := st.db.registry, snapshot.source, snapshot.items;
    && k <= |items|
    && NoConflict(t, source, items[..k])
    && View(st, writes) == Upserted(t, source, items[..k])
    && changed == |ChangedSlugs(t, source, items[..k])|
  }

  ghost predicate ArchiveOk(st: System, snapshot: Snapshot, writes: Table, changed: nat, targets: set<Text>, archived: nat) {
    var t, source, items := st.db.registry, snapshot.source, snapshot.items;
    var absent := AbsentSlugs(t, source, items);
    && NoConflict(t, source, items)
    && targets <= absent
    && View(st, writes) == ArchivedRows(Upserted(t, source, items), absent - targets)
    && changed == |ChangedSlugs(t, source, items)|
    && archived == |absent - targets|
  }

  ghost predicate SyncOk(st: System, s: Session)
    requires s.Syncing?
  {
    match s.syncPc
    case SyncBegun => s.locks == {}
    case AtItem(k, writes, changed) => SyncLocksOk(s, writes) && PrefixDone(st, s.snapshot, k, writes, changed)
    case OwnerChecked(k, writes, changed) =>
      && SyncLocksOk(s, writes) && PrefixDone(st, s.snapshot, k, writes, changed)
      && k < |s.snapshot.items| && NoConflict(st.db.registry, s.snapshot.source, s.snapshot.items[..k + 1])
    case Archiving(writes, changed, targets, archived) =>
      SyncLocksOk(s, writes) && ArchiveOk(st, s.snapshot, writes, changed, targets, archived)
  }

  ghost predicate SessionOk(st: System, s: Session) {
    match s
    case Creating(_, _, _, _) => CreateOk(st, s)
    case Moderating(_, _, _, _, _, _) => ModerateOk(st, s)
    case Syncing(_, _, _) => SyncOk(st, s)
    case Finished(_, _) => true
  }

  predicate HasInserted(s: Session) {
    s.Creating? && s.createPc.Inserted?
  }

  /** Two sessions never hold conflicting locks or the same uncommitted id. */
  ghost predicate Apart(a: Session, b: Session) {
    && Compatible(Held(a), Held(b))
    && (HasInserted(a) && HasInserted(b) ==> a.createPc.row.id != b.createPc.row.id)
  }

  ghost predicate Inv(st: System) {
    && st.nextComment > 0
    && Consistent(st.db, st.nextComment, st.nextAudit)
    && (forall i :: 0 <= i < |st.sessions| ==> SessionOk(st, st.sessions[i]))
    && (forall i, j :: 0 <= i < |st.sessions| && 0 <= j < |st.sessions| && i != j ==> Apart(st.sessions[i], st.sessions[j]))
  }

  /** A session changes only what its own locks protect. */
  ghost predicate Frame(lockKey: Text -> int, db: Db, db': Db, locks: set<Lock>) {
    && (db.registry == db'.registry || SyncLock in locks)
    && (forall slug :: slug in db.registry ==> slug in db'.registry)
    && (forall slug :: slug in db.registry && db'.registry[slug] != db.registry[slug] ==> RowUpdate(slug) in locks)
    && (forall id :: id in db.comments ==> id in db'.comments && db'.comments[id].slug == db.comments[id].slug)
    && (forall id :: id in db'.comments && (id !in db.comments || db.comments[id] != db'.comments[id]) ==>
          PostLock(lockKey(db'.comments[id].slug)) in locks)
    && (forall id :: id in db.comments && EventsOf(db'.audit, id) != EventsOf(db.audit, id) ==>
          PostLock(lockKey(db.comments[id].slug)) in locks)
  }

  lemma StepIsFramed(st: System, s: Session)
    requires SessionOk(st, s) && Consistent(st.db, st.nextComment, st.nextAudit)
    ensures Frame(st.lockKey, st.db, Committed(st.db, s), Held(s))
  {
    if s.Moderating? && s.moderatePc.Audited? {
      ModerationIsFramed(st, s);
    } else if s.Syncing? && s.syncPc.Archiving? {
      SyncIsFramed(st, s);
    }
  }

  lemma ModerationIsFramed(st: System, s: Session)
    requires s.Moderating? && s.moderatePc.Audited? && ModerateOk(st, s) && Consistent(st.db, st.nextComment, st.nextAudit)
    ensures Frame(st.lockKey, st.db, Committed(st.db, s), s.locks)
  {
    var event, db' := s.moderatePc.event, Committed(st.db, s);
    assert CommentConsistent(st.db, st.nextComment, s.id);
    forall id | id in st.db.comments && id != s.id ensures EventsOf(db'.audit, id) == EventsOf(st.db.audit, id) {
      EventsOfAppend(st.db.audit, event, id);
    }
  }

  lemma SyncIsFramed(st: System, s: Session)
    requires s.Syncing? && s.syncPc.Archiving? && SyncLocksOk(s, s.syncPc.writes)
    ensures Frame(st.lockKey, st.db, Committed(st.db, s), s.locks)
  {
  }

  /** A count taken under a post's lock stays valid while another session commits. */
  lemma CountIsStable(lockKey: Text -> int, db: Db, db': Db, locks: set<Lock>, slug: Text)
    requires Frame(lockKey, db, db', locks) && PostLock(lockKey(slug)) !in locks
    ensures VisibleCount(db', slug) == VisibleCount(db, slug)
  {
    forall id ensures id in VisibleIds(db', slug) <==> id in VisibleIds(db, slug) {
      if id in db.comments && db.comments[id].slug == slug {
        assert db'.comments[id] == db.comments[id];
      } else if id in db'.comments && db'.comments[id].slug == slug {
        assert id in db.comments;
      }
    }
    assert VisibleIds(db', slug) == VisibleIds(db, slug);
  }

  /** Rely and guarantee: another session's step leaves this session's facts in place. */
  lemma StaysOk(st: System, st': System, s: Session, other: set<Lock>)
    requires SessionOk(st, s) && Compatible(other, Held(s))
    requires Frame(st.lockKey, st.db, st'.db, other) && st'.lockKey == st.lockKey
    requires st'.nextComment >= st.nextComment && st'.nextAudit >= st.nextAudit
    requires HasInserted(s) ==> s.createPc.row.id !in st'.db.comments
    requires Consistent(st.db, st.nextComment, st.nextAudit)
    ensures SessionOk(st', s)
  {
    match s
    case Creating(input, _, pc, locks) =>
      if pc != CreateBegun {
        assert PostLock(st.lockKey(input.slug)) in locks;
        CountIsStable(st.lockKey, st.db, st'.db, other, input.slug);
        if RowShare(input.slug) in locks && RowUpdate(input.slug) in other {
          assert Conflicts(RowUpdate(input.slug), RowShare(input.slug));
        }
      }
    case Moderating(id, _, _, _, pc, locks) =>
      if pc != ModerateBegun && !pc.Found? {
        var slug := pc.slug;
        assert PostLock(st.lockKey(slug)) in locks;
        CountIsStable(st.lockKey, st.db, st'.db, other, slug);
        assert st'.db.comments[id] == st.db.comments[id];
        assert EventsOf(st'.db.audit, id) == EventsOf(st.db.audit, id);
        if pc.Audited? { assert pc.event.commentId == id; }
      }
    case Syncing(_, pc, locks) =>
      if pc != SyncBegun {
        assert Conflicts(SyncLock, SyncLock);
        assert st'.db.registry == st.db.registry;
      }
    case Finished(_, _) =>
  }

  /** A statement that does not commit leaves the session with facts that hold right now. */
  lemma CreateStepOk(st: System, s: Session, choice: Choice)
    requires s.Creating? && CreateOk(st, s) && ChoiceAllowed(st, s, choice) && st.nextComment > 0
    requires Consistent(st.db, st.nextComment, st.nextAudit)
    ensures SessionOk(if s.createPc == Counted then st.(nextComment := choice.given.commentId + 1) else st, CreateStep(st, s, choice))
  {
  }

  lemma ModerateStepOk(st: System, s: Session, choice: Choice)
    requires s.Moderating? && ModerateOk(st, s) && ChoiceAllowed(st, s, choice)
    requires Consistent(st.db, st.nextComment, st.nextAudit)
    ensures SessionOk(if s.moderatePc.Updated? then st.(nextAudit := choice.given.auditId + 1) else st, ModerateStep(st, s, choice))
  {
    match s.moderatePc
    case ModerateBegun =>
    case Found(_) =>
    case Locked(_) =>
    case AlreadyThere(_, _) =>
    case MustCount(_, _) =>
    case MayUpdate(_, _) =>
    case Updated(_, _, _) => AuditInsertOk(st, s, choice);
    case Audited(_, _, _, _) =>
  }

  lemma AuditInsertOk(st: System, s: Session, choice: Choice)
    requires s.Moderating? && s.moderatePc.Updated? && ModerateOk(st, s) && ChoiceAllowed(st, s, choice)
    requires Consistent(st.db, st.nextComment, st.nextAudit)
    ensures SessionOk(st.(nextAudit := choice.given.auditId + 1), ModerateStep(st, s, choice))
  {
    var Updated(slug, current, updated) := s.moderatePc;
    assert CommentConsistent(st.db, st.nextComment, s.id);
    var event := NewEvent(current, s.desired, s.context, choice.given.auditId);
    EventsAreFromTrail(st.db.audit, s.id);
    assert NewestOfTrail(st.db, event);
    var st' := st.(nextAudit := choice.given.auditId + 1);
    var s' := ModerateStep(st, s, choice);
    assert s' == s.(moderatePc := Audited(slug, current, updated, event), locks := s.locks + {});
    assert s'.locks == s.locks;
    assert MayMove(st', s', slug, current);
  }

  lemma SyncStepOk(st: System, s: Session, choice: Choice)
    requires s.Syncing? && SyncOk(st, s) && ChoiceAllowed(st, s, choice)
    ensures SessionOk(st, SyncStep(st, s, choice))
  {
    match s.syncPc
    case SyncBegun => NothingDone(st, s.snapshot);
    case AtItem(_, _, _) => OwnerReadOk(st, s, choice);
    case OwnerChecked(_, _, _) => UpsertOk(st, s, choice);
    case Archiving(_, _, _, _) => ArchiveRowOk(st, s, choice);
  }

  lemma NothingDone(st: System, snapshot: Snapshot)
    ensures PrefixDone(st, snapshot, 0, map[], 0)
  {
  }

  lemma ArchiveRowOk(st: System, s: Session, choice: Choice)
    requires s.Syncing? && s.syncPc.Archiving? && SyncOk(st, s) && ChoiceAllowed(st, s, choice)
    ensures SessionOk(st, SyncStep(st, s, choice))
  {
    if s.syncPc.targets != {} {
      ArchiveContinues(st, s, choice.row);
      ArchiveStepValue(st, s, choice);
      LocksCoverWrite(s, SyncStep(st, s, choice), s.syncPc.writes, choice.row, View(st, s.syncPc.writes)[choice.row].(status := Archived));
    }
  }

  lemma ArchiveStepValue(st: System, s: Session, choice: Choice)
    requires s.Syncing? && s.syncPc.Archiving? && choice.row in s.syncPc.targets
    requires MustArchive(View(st, s.syncPc.writes), s.snapshot.source, s.snapshot.items, choice.row)
    ensures var Archiving(writes, changed, targets, archived), row := s.syncPc, choice.row;
      var writes' := writes[row := View(st, writes)[row].(status := Archived)];
      SyncStep(st, s, choice) ==
      Syncing(s.snapshot, Archiving(writes', changed, targets - {row}, archived + 1), s.locks + {RowUpdate(row)})
  {
  }

  /** A written row is locked by the statement that writes it. */
  lemma LocksCoverWrite(s: Session, s': Session, writes: Table, slug: Text, row: Row)
    requires s.Syncing? && SyncLocksOk(s, writes)
    requires s'.Syncing? && s'.snapshot == s.snapshot && s'.locks == s.locks + {RowUpdate(slug)}
    ensures SyncLocksOk(s', writes) && SyncLocksOk(s', writes[slug := row])
  {
  }

  lemma OwnerReadOk(st: System, s: Session, choice: Choice)
    requires s.Syncing? && s.syncPc.AtItem? && SyncOk(st, s)
    ensures SessionOk(st, SyncStep(st, s, choice))
  {
    if s.syncPc.index == |s.snapshot.items| {
      LastItemDone(st, s, choice);
    } else {
      OwnerIsChecked(st, s, choice);
    }
  }

  lemma LastItemDone(st: System, s: Session, choice: Choice)
    requires s.Syncing? && s.syncPc.AtItem? && SyncOk(st, s) && s.syncPc.index == |s.snapshot.items|
    ensures SessionOk(st, SyncStep(st, s, choice))
  {
    OwnerReadValue(st, s, choice);
    ArchiveStarts(st, s, s.syncPc.writes, s.syncPc.changed);
  }

  lemma OwnerIsChecked(st: System, s: Session, choice: Choice)
    requires s.Syncing? && s.syncPc.AtItem? && SyncOk(st, s) && s.syncPc.index < |s.snapshot.items|
    ensures SessionOk(st, SyncStep(st, s, choice))
  {
    OwnerReadValue(st, s, choice);
    OwnerTest(st, s.snapshot, s.syncPc.index, s.syncPc.writes, s.syncPc.changed);
  }

  /** The owner read on the working view decides whether the item conflicts in the registry. */
  lemma OwnerTest(st: System, snapshot: Snapshot, k: nat, writes: Table, changed: nat)
    requires k < |snapshot.items| && Distinct(snapshot.items) && PrefixDone(st, snapshot, k, writes, changed)
    ensures var view, item := View(st, writes), snapshot.items[k];
      (item.slug in view && view[item.slug].managedBy != snapshot.source) <==>
      !NoConflict(st.db.registry, snapshot.source, snapshot.items[..k + 1])
  {
    PrefixGrows(st.db.registry, snapshot.source, snapshot.items, k, View(st, writes));
  }

  /** After the owner read: the archive pass, a conflict, or the upsert, with no new lock. */
  lemma OwnerReadValue(st: System, s: Session, choice: Choice)
    requires s.Syncing? && s.syncPc.AtItem? && s.syncPc.index <= |s.snapshot.items|
    ensures var AtItem(k, writes, changed), s' := s.syncPc, SyncStep(st, s, choice);
      var view, source, items := View(st, writes), s.snapshot.source, s.snapshot.items;
      if k == |items| then
        s' == Syncing(s.snapshot, Archiving(writes, changed, set slug | slug in view.Keys && MustArchive(view, source, items, slug), 0), s.locks)
      else if items[k].slug in view && view[items[k].slug].managedBy != source then s'.Finished?
      else s' == Syncing(s.snapshot, OwnerChecked(k, writes, changed), s.locks)
  {
    assert s.locks + {} == s.locks;
  }

  lemma PrefixGrows(t: Table, source: Text, items: seq<Item>, k: nat, view: Table)
    requires k < |items| && Distinct(items) && NoConflict(t, source, items[..k]) && view == Upserted(t, source, items[..k])
    ensures (items[k].slug in view && view[items[k].slug].managedBy != source) <==> !NoConflict(t, source, items[..k + 1])
    ensures NoConflict(t, source, items[..k + 1]) ==>
      && Upserted(t, source, items[..k + 1]) == (if UpsertApplies(view, source, items[k]) then view[items[k].slug := RowFor(items[k], source)] else view)
      && |ChangedSlugs(t, source, items[..k + 1])| == |ChangedSlugs(t, source, items[..k])| + (if UpsertApplies(view, source, items[k]) then 1 else 0)
  {
    OneUpsert(t, source, items, k);
    if items[k].slug in view && view[items[k].slug].managedBy != source {
      assert items[..k + 1][k] == items[k] && items[k].slug in t;
    }
  }

  lemma PrefixDoneNext(st: System, snapshot: Snapshot, k: nat, writes: Table, changed: nat)
    requires k < |snapshot.items| && Distinct(snapshot.items) && PrefixDone(st, snapshot, k, writes, changed)
    requires NoConflict(st.db.registry, snapshot.source, snapshot.items[..k + 1])
    ensures var item := snapshot.items[k];
      if UpsertApplies(View(st, writes), snapshot.source, item)
      then PrefixDone(st, snapshot, k + 1, writes[item.slug := RowFor(item, snapshot.source)], changed + 1)
      else PrefixDone(st, snapshot, k + 1, writes, changed)
  {
    var source, items := snapshot.source, snapshot.items;
    PrefixGrows(st.db.registry, source, items, k, View(st, writes));
    ViewOfWrite(st, writes, items[k].slug, RowFor(items[k], source));
  }

  lemma UpsertOk(st: System, s: Session, choice: Choice)
    requires s.Syncing? && s.syncPc.OwnerChecked? && SyncOk(st, s)
    ensures SessionOk(st, SyncStep(st, s, choice))
  {
    var OwnerChecked(k, writes, changed) := s.syncPc;
    PrefixDoneNext(st, s.snapshot, k, writes, changed);
    UpsertValue(st, s, choice);
    var item, s' := s.snapshot.items[k], SyncStep(st, s, choice);
    LocksCoverWrite(s, s', writes, item.slug, RowFor(item, s.snapshot.source));
  }

  lemma UpsertValue(st: System, s: Session, choice: Choice)
    requires s.Syncing? && s.syncPc.OwnerChecked? && s.syncPc.index < |s.snapshot.items|
    ensures var OwnerChecked(k, writes, changed), source := s.syncPc, s.snapshot.source;
      var item := s.snapshot.items[k];
      var pc := if UpsertApplies(View(st, writes), source, item)
                then AtItem(k + 1, writes[item.slug := RowFor(item, source)], changed + 1)
                else AtItem(k + 1, writes, changed);
      SyncStep(st, s, choice) == Syncing(s.snapshot, pc, s.locks + {RowUpdate(item.slug)})
  {
  }

  /** The archive statement finds exactly the source's absent rows. */
  lemma ArchiveStarts(st: System, s: Session, writes: Table, changed: nat)
    requires s.Syncing? && PrefixDone(st, s.snapshot, |s.snapshot.items|, writes, changed)
    ensures var view, source, items := View(st, writes), s.snapshot.source, s.snapshot.items;
      var targets := set slug | slug in view.Keys && MustArchive(view, source, items, slug);
      ArchiveOk(st, s.snapshot, writes, changed, targets, 0)
  {
    var t, source, items := st.db.registry, s.snapshot.source, s.snapshot.items;
    assert items[..|items|] == items;
    var view, absent := View(st, writes), AbsentSlugs(t, source, items);
    assert absent == set slug | slug in view.Keys && MustArchive(view, source, items, slug);
    assert absent - absent == {};
    assert ArchivedRows(view, {}) == view;
  }

  lemma ArchiveOneMore(t: Table, absent: set<Text>, targets: set<Text>, row: Text)
    requires row in t && row in targets && targets <= absent
    ensures var view := ArchivedRows(t, absent - targets);
      view[row] == t[row] && ArchivedRows(t, absent - (targets - {row})) == view[row := t[row].(status := Archived)]
    ensures |absent - (targets - {row})| == |absent - targets| + 1
  {
  }

  lemma AbsentRow(t: Table, source: Text, items: seq<Item>, row: Text)
    requires row in AbsentSlugs(t, source, items)
    ensures MustArchive(Upserted(t, source, items), source, items, row)
  {
  }

  /** Each visited row still matches the archive condition when its turn comes. */
  lemma ArchiveContinues(st: System, s: Session, row: Text)
    requires s.Syncing? && s.syncPc.Archiving? && row in s.syncPc.targets
    requires ArchiveOk(st, s.snapshot, s.syncPc.writes, s.syncPc.changed, s.syncPc.targets, s.syncPc.archived)
    ensures var Archiving(writes, changed, targets, archived) := s.syncPc;
      var view := View(st, writes);
      && MustArchive(view, s.snapshot.source, s.snapshot.items, row)
      && ArchiveOk(st, s.snapshot, writes[row := view[row].(status := Archived)], changed, targets - {row}, archived + 1)
  {
    var Archiving(writes, changed, targets, archived) := s.syncPc;
    var t, source, items := st.db.registry, s.snapshot.source, s.snapshot.items;
    AbsentRow(t, source, items, row);
    ArchiveOneMore(Upserted(t, source, items), AbsentSlugs(t, source, items), targets, row);
    ViewOfWrite(st, writes, row, View(st, writes)[row].(status := Archived));
  }

  lemma ViewOfWrite(st: System, writes: Table, slug: Text, row: Row)
    ensures View(st, writes[slug := row]) == View(st, writes)[slug := row]
  {
  }

  lemma {:induction false} AppendKeepsTrail(audit: seq<AuditEvent>, event: AuditEvent)
    requires event.previous != event.next
    requires event.eventType == (if event.next == Hidden then CommentHide else CommentUnhide)
    requires Replay(EventsOf(audit, event.commentId)) == Some(event.previous) && IdsAscend(EventsOf(audit, event.commentId))
    requires forall e :: e in EventsOf(audit, event.commentId) ==> e.id < event.id
    ensures Replay(EventsOf(audit + [event], event.commentId)) == Some(event.next)
    ensures IdsAscend(EventsOf(audit + [event], event.commentId))
  {
  }

  lemma InsertIsConsistent(st: System, s: Session)
    requires HasInserted(s) && CreateOk(st, s) && Consistent(st.db, st.nextComment, st.nextAudit)
    ensures Consistent(Committed(st.db, s), st.nextComment, st.nextAudit)
  {
    var row := s.createPc.row;
    NoEventsBefore(st.db, st.nextComment, st.nextAudit, row.id);
    forall id | id in Committed(st.db, s).comments ensures CommentConsistent(Committed(st.db, s), st.nextComment, id) {
      if id != row.id { assert CommentConsistent(st.db, st.nextComment, id); }
    }
  }

  /** A comment that a commit does not touch stays consistent. */
  lemma {:induction false} UntouchedIsConsistent(db: Db, db': Db, nextComment: int, id: int)
    requires id in db.comments && CommentConsistent(db, nextComment, id)
    requires id in db'.comments && db'.comments[id] == db.comments[id] && db'.registry == db.registry
    requires EventsOf(db'.audit, id) == EventsOf(db.audit, id)
    ensures CommentConsistent(db', nextComment, id)
  {
  }

  /** A real transition and its audit event, committed together, keep the tables consistent. */
  lemma TransitionIsConsistent(db: Db, nextComment: int, nextAudit: int, current: Comment, desired: Visibility, now: int, event: AuditEvent)
    requires Consistent(db, nextComment, nextAudit)
    requires current.id in db.comments && db.comments[current.id] == current && current.status != desired
    requires event.commentId == current.id && event.previous == current.status && event.next == desired
    requires event.eventType == (if desired == Visible then CommentUnhide else CommentHide)
    requires event.id < nextAudit && NewestOfTrail(db, event)
    ensures var updated := WithVisibility(current, desired, now);
      Consistent(db.(comments := db.comments[current.id := updated], audit := db.audit + [event]), nextComment, nextAudit)
  {
    var updated := WithVisibility(current, desired, now);
    var db' := db.(comments := db.comments[current.id := updated], audit := db.audit + [event]);
    forall id | id in db'.comments ensures CommentConsistent(db', nextComment, id) {
      assert CommentConsistent(db, nextComment, id);
      if id == current.id {
        MovedIsConsistent(db, db', nextComment, current, updated, event);
      } else {
        EventsOfAppend(db.audit, event, id);
        UntouchedIsConsistent(db, db', nextComment, id);
      }
    }
  }

  lemma MovedIsConsistent(db: Db, db': Db, nextComment: int, current: Comment, updated: Comment, event: AuditEvent)
    requires current.id in db.comments && db.comments[current.id] == current && CommentConsistent(db, nextComment, current.id)
    requires updated.id == current.id && updated.slug == current.slug && (updated.status == Hidden <==> updated.hiddenAt.Some?)
    requires current.id in db'.comments && db'.comments[current.id] == updated && db'.registry == db.registry
    requires event.commentId == current.id && event.previous == current.status != event.next == updated.status
    requires event.eventType == (if event.next == Hidden then CommentHide else CommentUnhide)
    requires db'.audit == db.audit + [event] && NewestOfTrail(db, event)
    ensures CommentConsistent(db', nextComment, current.id)
  {
    AppendKeepsTrail(db.audit, event);
  }

  lemma ModerationIsConsistent(st: System, s: Session)
    requires s.Moderating? && s.moderatePc.Audited? && ModerateOk(st, s) && Consistent(st.db, st.nextComment, st.nextAudit)
    ensures Consistent(Committed(st.db, s), st.nextComment, st.nextAudit)
  {
    var Audited(_, current, updated, event) := s.moderatePc;
    assert CommentConsistent(st.db, st.nextComment, s.id);
    TransitionIsConsistent(st.db, st.nextComment, st.nextAudit, current, s.desired, Clock(updated), event);
  }

  lemma SyncIsConsistent(st: System, s: Session)
    requires s.Syncing? && Consistent(st.db, st.nextComment, st.nextAudit)
    ensures Consistent(Committed(st.db, s), st.nextComment, st.nextAudit)
  {
  }

  /** Every commit leaves the tables consistent, audit trail included. */
  lemma CommitIsConsistent(st: System, s: Session)
    requires SessionOk(st, s) && Consistent(st.db, st.nextComment, st.nextAudit)
    ensures Consistent(Committed(st.db, s), st.nextComment, st.nextAudit)
  {
    if HasInserted(s) {
      InsertIsConsistent(st, s);
    } else if s.Moderating? && s.moderatePc.Audited? {
      ModerationIsConsistent(st, s);
    } else if s.Syncing? {
      SyncIsConsistent(st, s);
    }
  }

  lemma {:induction false} NoEventsBefore(db: Db, nextComment: int, nextAudit: int, id: int)
    requires Consistent(db, nextComment, nextAudit) && id !in db.comments
    ensures EventsOf(db.audit, id) == []
  {
    var events := EventsOf(db.audit, id);
    if events != [] {
      var e := events[0];
      assert e in events;
      EventsAreFromTrail(db.audit, id);
      assert false;
    }
  }

  lemma ConsistentLater(db: Db, nextComment: int, nextAudit: int, nextComment': int, nextAudit': int)
    requires Consistent(db, nextComment, nextAudit) && nextComment <= nextComment' && nextAudit <= nextAudit'
    ensures Consistent(db, nextComment', nextAudit')
  {
  }

  lemma NewLocksAreWanted(st: System, a: Action)
    requires Enabled(st, a) && a.Execute?
    ensures Held(Next(st, a).sessions[a.session]) <= Held(st.sessions[a.session]) + Wanted(st, st.sessions[a.session], a.choice)
  {
  }

  lemma StaysApart(st: System, a: Action, j: nat)
    requires Inv(st) && Enabled(st, a) && a.Execute? && j < |st.sessions| && j != a.session
    ensures Apart(Next(st, a).sessions[a.session], st.sessions[j])
    ensures Apart(st.sessions[j], Next(st, a).sessions[a.session])
    ensures HasInserted(st.sessions[j]) ==> st.sessions[j].createPc.row.id !in Next(st, a).db.comments
  {
    var s := st.sessions[a.session];
    assert Apart(s, st.sessions[j]) && Apart(st.sessions[j], s);
    if HasInserted(st.sessions[j]) { InsertedIdsStayApart(st, a, j); }
    NewLocksAreWanted(st, a);
    LocksStayApart(Held(s), Held(Next(st, a).sessions[a.session]), Wanted(st, s, a.choice), Held(st.sessions[j]));
  }

  /** A new id exceeds every id that is waiting for its commit. */
  lemma InsertedIdsStayApart(st: System, a: Action, j: nat)
    requires Inv(st) && Enabled(st, a) && a.Execute? && j < |st.sessions| && j != a.session && HasInserted(st.sessions[j])
    ensures HasInserted(Next(st, a).sessions[a.session]) ==>
      Next(st, a).sessions[a.session].createPc.row.id != st.sessions[j].createPc.row.id
    ensures st.sessions[j].createPc.row.id !in Next(st, a).db.comments
  {
    var s := st.sessions[a.session];
    assert Apart(s, st.sessions[j]) && SessionOk(st, s);
    assert SessionOk(st, st.sessions[j]);
    CommittedIds(st, s);
    if !HasInserted(s) { InsertIsNew(st, s, a.choice); }
  }

  lemma CommittedIds(st: System, s: Session)
    requires SessionOk(st, s)
    ensures Committed(st.db, s).comments.Keys <= st.db.comments.Keys + (if HasInserted(s) then {s.createPc.row.id} else {})
  {
  }

  lemma InsertIsNew(st: System, s: Session, choice: Choice)
    requires ChoiceAllowed(st, s, choice) && !HasInserted(s)
    ensures var s' := SessionStep(st, s, choice); HasInserted(s') ==> s'.createPc.row.id >= st.nextComment
  {
  }

  lemma LocksStayApart(held: set<Lock>, held': set<Lock>, wanted: set<Lock>, other: set<Lock>)
    requires held' <= held + wanted && Compatible(held, other) && Compatible(wanted, other)
    ensures Compatible(held', other) && Compatible(other, held')
  {
    forall l, m | l in other && m in held' ensures !Conflicts(l, m) {
      assert !Conflicts(m, l);
    }
  }

  /** The session that moved is fine in the new state. */
  lemma MoverIsOk(st: System, a: Action)
    requires Inv(st) && Enabled(st, a) && a.Execute?
    ensures SessionOk(Next(st, a), Next(st, a).sessions[a.session])
  {
    assert SessionOk(st, st.sessions[a.session]);
    match st.sessions[a.session]
    case Creating(_, _, _, _) => CreatorIsOk(st, a);
    case Moderating(_, _, _, _, _, _) => ModeratorIsOk(st, a);
    case Syncing(_, _, _) => SynchroniserIsOk(st, a);
  }

  lemma CreatorIsOk(st: System, a: Action)
    requires Enabled(st, a) && a.Execute? && Consistent(st.db, st.nextComment, st.nextAudit) && st.nextComment > 0
    requires st.sessions[a.session].Creating? && CreateOk(st, st.sessions[a.session])
    ensures SessionOk(Next(st, a), Next(st, a).sessions[a.session])
  {
    CreateStepOk(st, st.sessions[a.session], a.choice);
  }

  lemma ModeratorIsOk(st: System, a: Action)
    requires Enabled(st, a) && a.Execute? && Consistent(st.db, st.nextComment, st.nextAudit)
    requires st.sessions[a.session].Moderating? && ModerateOk(st, st.sessions[a.session])
    ensures SessionOk(Next(st, a), Next(st, a).sessions[a.session])
  {
    ModerateStepOk(st, st.sessions[a.session], a.choice);
  }

  lemma SynchroniserIsOk(st: System, a: Action)
    requires Enabled(st, a) && a.Execute?
    requires st.sessions[a.session].Syncing? && SyncOk(st, st.sessions[a.session])
    ensures SessionOk(Next(st, a), Next(st, a).sessions[a.session])
  {
    SyncStepOk(st, st.sessions[a.session], a.choice);
  }

  /** The invariant is inductive: any statement of any session and any rollback keep it. */
  lemma StepKeepsInv(st: System, a: Action)
    requires Inv(st) && Enabled(st, a)
    ensures Inv(Next(st, a))
  {
    var st', i := Next(st, a), a.session;
    var s := st.sessions[i];
    if a.Execute? {
      assert SessionOk(st, s);
      MoverIsOk(st, a);
      StepIsFramed(st, s);
      CommitIsConsistent(st, s);
      ConsistentLater(st'.db, st.nextComment, st.nextAudit, st'.nextComment, st'.nextAudit);
      forall j | 0 <= j < |st.sessions| && j != i
        ensures SessionOk(st', st'.sessions[j]) && Apart(st'.sessions[i], st'.sessions[j]) && Apart(st'.sessions[j], st'.sessions[i])
      {
        StaysApart(st, a, j);
        assert Apart(s, st.sessions[j]) && SessionOk(st, st.sessions[j]);
        StaysOk(st, st', st.sessions[j], Held(s));
      }
    } else {
      forall j | 0 <= j < |st.sessions| ensures SessionOk(st', st'.sessions[j]) {
        assert SessionOk(st, st.sessions[j]);
        if j != i { StaysOk(st, st', st.sessions[j], {}); }
      }
      forall j, k | 0 <= j < |st.sessions| && 0 <= k < |st.sessions| && j != k ensures Apart(st'.sessions[j], st'.sessions[k]) {
        assert Apart(st.sessions[j], st.sessions[k]);
      }
    }
  }

  lemma StartIsInv(st: System)
    requires Start(st)
    ensures Inv(st)
  {
  }

  /** Every state of every run satisfies the invariant. */
  lemma {:induction false} RunKeepsInv(st: System, run: seq<Action>)
    requires Inv(st) && IsRun(st, run)
    ensures Inv(After(st, run))
    ensures |After(st, run).sessions| == |st.sessions|
  {
    if run != [] {
      RunKeepsInv(st, run[..|run| - 1]);
      StepKeepsInv(After(st, run[..|run| - 1]), run[|run| - 1]);
    }
  }
}
