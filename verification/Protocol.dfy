/** The statement-level protocol: any number of sessions run comment creation, moderation
    and registry synchronisation one SQL statement at a time.

    Database semantics taken as given: READ COMMITTED, so a statement sees what is committed
    when it executes plus its own transaction's writes; a locking read or write waits for
    conflicting row locks and then sees the latest committed version; locks are kept until
    commit or rollback and released in the same instant; identity values only grow, with
    gaps, and are not rolled back; no statement deletes a comment or a registry row. */
module Protocol {
  import opened Texts
  import opened Manifest
  import opened Registry
  import opened Database

  datatype Lock =
    | PostLock(key: int)          // advisory, two-int key space: (namespace, hashtext(slug))
    | SyncLock                    // advisory, one-bigint key space
    | RowShare(slug: Text)        // registry row, FOR SHARE
    | RowUpdate(slug: Text)       // registry row, taken by the upsert and archive statements
    | CommentRow(id: int)         // comment row, FOR UPDATE

  predicate Conflicts(a: Lock, b: Lock) {
    match (a, b)
    case (RowShare(s), RowUpdate(s')) => s == s'
    case (RowUpdate(s), RowShare(s')) => s == s'
    case (RowShare(_), RowShare(_)) => false
    case _ => a == b
  }

  ghost predicate Compatible(a: set<Lock>, b: set<Lock>) {
    forall l, m :: l in a && m in b ==> !Conflicts(l, m)
  }

  /** The last statement that a comment creation has completed, with its private data. */
  datatype CreatePc = CreateBegun | PostLocked | PolicyChecked | Counted | Inserted(row: Comment)

  datatype ModeratePc =
    | ModerateBegun
    | Found(slug: Text)
    | Locked(slug: Text)
    | AlreadyThere(slug: Text, current: Comment)
    | MustCount(slug: Text, current: Comment)
    | MayUpdate(slug: Text, current: Comment)
    | Updated(slug: Text, current: Comment, updated: Comment)
    | Audited(slug: Text, current: Comment, updated: Comment, event: AuditEvent)

  /** `writes` are the transaction's uncommitted registry rows; `index` counts finished items. */
  datatype SyncPc =
    | SyncBegun
    | AtItem(index: nat, writes: Table, changed: nat)
    | OwnerChecked(index: nat, writes: Table, changed: nat)
    | Archiving(writes: Table, changed: nat, targets: set<Text>, archived: nat)

  datatype Session =
    | Creating(input: CreateInput, cap: int, createPc: CreatePc, locks: set<Lock>)
    | Moderating(id: int, desired: Visibility, cap: int, context: AuditContext, moderatePc: ModeratePc, locks: set<Lock>)
    | Syncing(snapshot: Snapshot, syncPc: SyncPc, locks: set<Lock>)
    | Finished(call: Call, outcome: Outcome)

  /** `lockKey` stands for `hashtext`: an arbitrary function, so different posts may share a key. */
  datatype System = System(
    lockKey: Text -> int, db: Db, nextComment: int, nextAudit: int, sessions: seq<Session>)

  /** What the database chooses for one statement: identity values, the clock, and which row
      a multi-row update visits next. */
  datatype Choice = Choice(given: Given, row: Text)

  /** `Execute` runs the session's next statement; `Abort` rolls its transaction back. */
  datatype Action = Execute(session: nat, choice: Choice) | Abort(session: nat)

  function Held(s: Session): set<Lock> {
    if s.Finished? then {} else s.locks
  }

  function CallOf(s: Session): Call {
    match s
    case Creating(input, cap, _, _) => Create(input, cap)
    case Moderating(id, desired, cap, context, _, _) => SetVisibility(id, desired, cap, context)
    case Syncing(snapshot, _, _) => Sync(snapshot)
    case Finished(call, _) => call
  }

  function Begin(call: Call): Session {
    match call
    case Create(input, cap) => Creating(input, cap, CreateBegun, {})
    case SetVisibility(id, desired, cap, context) => Moderating(id, desired, cap, context, ModerateBegun, {})
    case Sync(snapshot) => Syncing(snapshot, SyncBegun, {})
  }

  /** The registry as a synchronising transaction sees it. */
  function View(st: System, writes: Table): Table {
    st.db.registry + writes
  }

  predicate MustArchive(t: Table, source: Text, items: seq<Item>, slug: Text) {
    slug in t && t[slug].managedBy == source && slug !in SlugsOf(items) && t[slug].status != Archived
  }

  /** The locks that the next statement has to obtain before it can complete. */
  ghost function Wanted(st: System, s: Session, choice: Choice): set<Lock> {
    match s
    case Creating(input, _, pc, _) =>
      (match pc
       case CreateBegun => {PostLock(st.lockKey(input.slug))}
       case PostLocked => if input.slug in st.db.registry then {RowShare(input.slug)} else {}
       case _ => {})
    case Moderating(id, _, _, _, pc, _) =>
      (match pc
       case Found(slug) => {PostLock(st.lockKey(slug))}
       case Locked(_) => if id in st.db.comments then {CommentRow(id)} else {}
       case _ => {})
    case Syncing(snapshot, pc, _) =>
      (match pc
       case SyncBegun => if ValidSnapshot(snapshot) then {SyncLock} else {}
       case OwnerChecked(index, _, _) =>
         if index < |snapshot.items| then {RowUpdate(snapshot.items[index].slug)} else {}
       case Archiving(_, _, targets, _) => if choice.row in targets then {RowUpdate(choice.row)} else {}
       case _ => {})
    case Finished(_, _) => {}
  }

  /** Identity values come from sequences that only move forward, and a multi-row update
      visits one of its remaining rows. */
  ghost predicate ChoiceAllowed(st: System, s: Session, choice: Choice) {
    && (s.Creating? && s.createPc == Counted ==> choice.given.commentId >= st.nextComment)
    && (s.Moderating? && s.moderatePc.Updated? ==> choice.given.auditId >= st.nextAudit)
    && (s.Syncing? && s.syncPc.Archiving? && s.syncPc.targets != {} ==> choice.row in s.syncPc.targets)
  }

  /** Creation: lock the post, check the policy FOR SHARE, count, insert, commit. */
  ghost function CreateStep(st: System, s: Session, choice: Choice): Session
    requires s.Creating?
  {
    var Creating(input, cap, pc, locks) := s;
    var locks' := locks + Wanted(st, s, choice);
    match pc
    case CreateBegun => Creating(input, cap, PostLocked, locks')
    case PostLocked =>
      if Commentable(st.db, input.slug) then Creating(input, cap, PolicyChecked, locks')
      else Finished(CallOf(s), Unavailable)
    case PolicyChecked =>
      if VisibleCount(st.db, input.slug) >= cap then Finished(CallOf(s), PostFull)
      else Creating(input, cap, Counted, locks')
    case Counted => Creating(input, cap, Inserted(NewComment(input, choice.given.commentId)), locks')
    case Inserted(row) => Finished(CallOf(s), Created(row))
  }

  /** Moderation: find the post, lock it, re-read FOR UPDATE, count before an unhide, update,
      audit, commit. A comment that already has the desired status just commits. */
  ghost function ModerateStep(st: System, s: Session, choice: Choice): Session
    requires s.Moderating?
  {
    var Moderating(id, desired, cap, context, pc, locks) := s;
    var locks' := locks + Wanted(st, s, choice);
    match pc
    case ModerateBegun =>
      if id in st.db.comments then s.(moderatePc := Found(st.db.comments[id].slug), locks := locks')
      else Finished(CallOf(s), NotFound)
    case Found(slug) => s.(moderatePc := Locked(slug), locks := locks')
    case Locked(slug) =>
      if id !in st.db.comments then Finished(CallOf(s), NotFound)
      else
        var current := st.db.comments[id];
        s.(moderatePc := if current.status == desired then AlreadyThere(slug, current)
                         else if desired == Visible then MustCount(slug, current)
                         else MayUpdate(slug, current),
           locks := locks')
    case AlreadyThere(_, current) => Finished(CallOf(s), Moderated(current))
    case MustCount(slug, current) =>
      if VisibleCount(st.db, slug) >= cap then Finished(CallOf(s), PostFull)
      else s.(moderatePc := MayUpdate(slug, current), locks := locks')
    case MayUpdate(slug, current) =>
      s.(moderatePc := Updated(slug, current, WithVisibility(current, desired, choice.given.now)), locks := locks')
    case Updated(slug, current, updated) =>
      s.(moderatePc := Audited(slug, current, updated, NewEvent(current, desired, context, choice.given.auditId)), locks := locks')
    case Audited(_, _, updated, _) => Finished(CallOf(s), Moderated(updated))
  }

  /** Synchronisation: validate, take the sync lock, then for each item read the owner and
      upsert, archive the absent rows one at a time, commit. */
  ghost function SyncStep(st: System, s: Session, choice: Choice): Session
    requires s.Syncing?
  {
    var Syncing(snapshot, pc, locks) := s;
    var locks' := locks + Wanted(st, s, choice);
    var source, items := snapshot.source, snapshot.items;
    match pc
    case SyncBegun =>
      if ValidSnapshot(snapshot) then Syncing(snapshot, AtItem(0, map[], 0), locks')
      else Finished(CallOf(s), InvalidManifest)
    case AtItem(index, writes, changed) =>
      var view := View(st, writes);
      if index >= |items| then
        var targets := set slug | slug in view.Keys && MustArchive(view, source, items, slug);
        Syncing(snapshot, Archiving(writes, changed, targets, 0), locks')
      else if items[index].slug in view && view[items[index].slug].managedBy != source then
        Finished(CallOf(s), OwnedBySomeoneElse(items[index].slug))
      else Syncing(snapshot, OwnerChecked(index, writes, changed), locks')
    case OwnerChecked(index, writes, changed) =>
      if index >= |items| then s
      else if UpsertApplies(View(st, writes), source, items[index]) then
        var writes' := writes[items[index].slug := RowFor(items[index], source)];
        Syncing(snapshot, AtItem(index + 1, writes', changed + 1), locks')
      else Syncing(snapshot, AtItem(index + 1, writes, changed), locks')
    case Archiving(writes, changed, targets, archived) =>
      var view, row := View(st, writes), choice.row;
      if targets == {} then Finished(CallOf(s), SyncDone(changed, archived))
      else if MustArchive(view, source, items, row) then
        Syncing(snapshot, Archiving(writes[row := view[row].(status := Archived)], changed, targets - {row}, archived + 1), locks')
      else Syncing(snapshot, Archiving(writes, changed, targets - {row}, archived), locks')
  }

  ghost function SessionStep(st: System, s: Session, choice: Choice): Session {
    match s
    case Creating(_, _, _, _) => CreateStep(st, s, choice)
    case Moderating(_, _, _, _, _, _) => ModerateStep(st, s, choice)
    case Syncing(_, _, _) => SyncStep(st, s, choice)
    case Finished(_, _) => s
  }

  /** The committed rows after the session's next statement: only a commit publishes writes. */
  function Committed(db: Db, s: Session): Db {
    match s
    case Creating(_, _, Inserted(row), _) => db.(comments := db.comments[row.id := row])
    case Moderating(id, _, _, _, Audited(_, _, updated, event), _) =>
      db.(comments := db.comments[id := updated], audit := db.audit + [event])
    case Syncing(_, Archiving(writes, _, targets, _), _) =>
      if targets == {} then db.(registry := db.registry + writes) else db
    case _ => db
  }

  ghost predicate Enabled(st: System, a: Action) {
    && a.session < |st.sessions|
    && var s := st.sessions[a.session];
       && !s.Finished?
       && (a.Execute? ==>
             && ChoiceAllowed(st, s, a.choice)
             && forall j :: 0 <= j < |st.sessions| && j != a.session ==>
                  Compatible(Wanted(st, s, a.choice), Held(st.sessions[j])))
  }

  ghost function Next(st: System, a: Action): System
    requires Enabled(st, a)
  {
    var s := st.sessions[a.session];
    match a
    case Abort(i) => st.(sessions := st.sessions[i := Finished(CallOf(s), RolledBack)])
    case Execute(i, choice) =>
      System(st.lockKey, Committed(st.db, s),
            if s.Creating? && s.createPc == Counted then choice.given.commentId + 1 else st.nextComment,
            if s.Moderating? && s.moderatePc.Updated? then choice.given.auditId + 1 else st.nextAudit,
            st.sessions[i := SessionStep(st, s, choice)])
  }

  /** `run` is executable from `st`, statement after statement. */
  ghost predicate IsRun(st: System, run: seq<Action>)
    decreases |run|, 0
  {
    run == [] || (IsRun(st, run[..|run| - 1]) && Enabled(After(st, run[..|run| - 1]), run[|run| - 1]))
  }

  ghost function After(st: System, run: seq<Action>): System
    requires IsRun(st, run)
    decreases |run|, 1
  {
    if run == [] then st else Next(After(st, run[..|run| - 1]), run[|run| - 1])
  }

  /** A start state: consistent tables and calls that have not executed anything yet. */
  ghost predicate Start(st: System) {
    && st.nextComment > 0 && Consistent(st.db, st.nextComment, st.nextAudit)
    && forall i :: 0 <= i < |st.sessions| ==> st.sessions[i] == Begin(CallOf(st.sessions[i]))
  }
}
