/** Every interleaving of statements refines the sequential specification: the calls that
    were not rolled back can be replayed one at a time, in the order in which they finished,
    with the same outcomes and the same final tables. */
module Refinement {
  import opened Base
  import opened Manifest
  import opened Registry
  import opened Database
  import opened Protocol
  import opened ProtocolInvariant

  /** One finished call: which session, what it asked, what the database supplied, what it got. */
  datatype Entry = Entry(session: nat, call: Call, given: Given, outcome: Outcome)

  function GivenOf(s: Session): Given {
    match s
    case Creating(_, _, Inserted(row), _) => Given(row.id, 0, 0)
    case Moderating(_, _, _, _, Audited(_, _, updated, event), _) => Given(0, event.id, Clock(updated))
    case _ => Given(0, 0, 0)
  }

  /** The step in which a call takes effect: its commit, or the read that refuses it. */
  ghost predicate TakesEffect(st: System, a: Action)
    requires Enabled(st, a)
  {
    a.Execute? && Next(st, a).sessions[a.session].Finished?
  }

  ghost function EntryOf(st: System, a: Action): Entry
    requires Enabled(st, a) && TakesEffect(st, a)
  {
    var s := st.sessions[a.session];
    Entry(a.session, CallOf(s), GivenOf(s), Next(st, a).sessions[a.session].outcome)
  }

  ghost function History(st: System, run: seq<Action>): seq<Entry>
    requires IsRun(st, run)
  {
    if run == [] then []
    else
      var before, a := After(st, run[..|run| - 1]), run[|run| - 1];
      History(st, run[..|run| - 1]) + (if TakesEffect(before, a) then [EntryOf(before, a)] else [])
  }

  /** Replaying finished calls one at a time. */
  ghost function Sequential(db: Db, history: seq<Entry>): Db {
    if history == [] then db
    else
      var last := history[|history| - 1];
      Atomic(Sequential(db, history[..|history| - 1]), last.call, last.given).0
  }

  /** The identity values are new: a created comment is the newest of its post, and a
      transition's audit event the newest of its comment. */
  ghost predicate GivenIsNew(db: Db, call: Call, given: Given, outcome: Outcome) {
    && (outcome.Created? ==> NewestOfPost(db, outcome.comment))
    && (call.SetVisibility? && Atomic(db, call, given).0 != db ==>
          forall e :: e in EventsOf(db.audit, call.id) ==> e.id < given.auditId)
  }

  /** Each entry's outcome is what the specification returns at its place in the sequence. */
  ghost predicate Legal(db: Db, history: seq<Entry>) {
    forall n :: 0 <= n < |history| ==> LegalAt(db, history, n)
  }

  ghost predicate LegalAt(db: Db, history: seq<Entry>, n: nat)
    requires n < |history|
  {
    var before, entry := Sequential(db, history[..n]), history[n];
    Atomic(before, entry.call, entry.given).1 == entry.outcome && GivenIsNew(before, entry.call, entry.given, entry.outcome)
  }

  /** A finishing statement does to the committed rows what the whole call does at once;
      any other statement leaves them alone. */
  ghost predicate Simulates(db: Db, s: Session, s': Session, db': Db) {
    if s'.Finished? then
      && Atomic(db, CallOf(s), GivenOf(s)) == (db', s'.outcome)
      && GivenIsNew(db, CallOf(s), GivenOf(s), s'.outcome)
      && !s'.outcome.RolledBack? && s'.call == CallOf(s)
    else db' == db && CallOf(s') == CallOf(s)
  }

  lemma CreateRefines(st: System, s: Session, choice: Choice)
    requires s.Creating? && CreateOk(st, s)
    ensures Simulates(st.db, s, CreateStep(st, s, choice), Committed(st.db, s))
    ensures var s' := CreateStep(st, s, choice);
      s'.Finished? && s'.outcome.Created? ==>
        var row := s'.outcome.comment;
        && row == Comment(row.id, s.input.slug, s.input.author, s.input.body, s.input.visitor, Visible, None)
        && Committed(st.db, s) == st.db.(comments := st.db.comments[row.id := row])
  {
  }

  lemma ModerateRefines(st: System, s: Session, choice: Choice)
    requires s.Moderating? && ModerateOk(st, s) && Consistent(st.db, st.nextComment, st.nextAudit)
    ensures Simulates(st.db, s, ModerateStep(st, s, choice), Committed(st.db, s))
    ensures var s', db' := ModerateStep(st, s, choice), Committed(st.db, s);
      s'.Finished? && s'.outcome.Moderated? ==>
        && s.id in st.db.comments
        && var current, updated := st.db.comments[s.id], s'.outcome.comment;
           if current.status == s.desired then updated == current && db' == st.db
           else
             && updated == current.(status := s.desired, hiddenAt := updated.hiddenAt)
             && (updated.hiddenAt.Some? <==> s.desired == Hidden)
             && db'.comments == st.db.comments[s.id := updated] && db'.registry == st.db.registry
             && |db'.audit| == |st.db.audit| + 1
             && var event := db'.audit[|st.db.audit|];
                && db'.audit == st.db.audit + [event]
                && event == AuditEvent(event.id, if s.desired == Visible then CommentUnhide else CommentHide, s.context.actor,
                                       if s.context.requestId == [] then None else Some(s.context.requestId),
                                       s.id, current.status, s.desired)
  {
    if s.moderatePc.Audited? {
      assert CommentConsistent(st.db, st.nextComment, s.id);
    }
  }

  /** The update statement takes its clock reading as the hiding time. */
  lemma UpdateStatement(st: System, s: Session, choice: Choice)
    requires s.Moderating? && s.moderatePc.MayUpdate?
    ensures var s', current := ModerateStep(st, s, choice), s.moderatePc.current;
      s'.Moderating? && s'.moderatePc.Updated? &&
      s'.moderatePc.updated == current.(status := s.desired, hiddenAt := if s.desired == Hidden then Some(choice.given.now) else None)
  {
  }

  lemma SyncRefines(st: System, s: Session, choice: Choice)
    requires s.Syncing? && SyncOk(st, s)
    ensures Simulates(st.db, s, SyncStep(st, s, choice), Committed(st.db, s))
  {
    match s.syncPc
    case SyncBegun =>
    case AtItem(k, writes, _) =>
      if k < |s.snapshot.items| && SyncStep(st, s, choice).Finished? { ConflictIsFirst(st, s); }
    case OwnerChecked(_, _, _) =>
    case Archiving(writes, changed, targets, archived) =>
      if targets == {} { CommitIsSynced(st, s.snapshot, writes, changed, archived); }
  }

  /** The commit of a synchronisation publishes the synchronised registry and its counts. */
  lemma CommitIsSynced(st: System, snapshot: Snapshot, writes: Table, changed: nat, archived: nat)
    requires ValidSnapshot(snapshot) && ArchiveOk(st, snapshot, writes, changed, {}, archived)
    ensures AtomicSync(st.db, snapshot) == (st.db.(registry := st.db.registry + writes), SyncDone(changed, archived))
  {
  }

  /** An owner check that fails on the working view names the first conflicting item. */
  lemma ConflictIsFirst(st: System, s: Session)
    requires s.Syncing? && s.syncPc.AtItem? && SyncOk(st, s) && s.syncPc.index < |s.snapshot.items|
    requires var view, item := View(st, s.syncPc.writes), s.snapshot.items[s.syncPc.index];
      item.slug in view && view[item.slug].managedBy != s.snapshot.source
    ensures AtomicSync(st.db, s.snapshot) == (st.db, OwnedBySomeoneElse(s.snapshot.items[s.syncPc.index].slug))
  {
    var t, source, items, k := st.db.registry, s.snapshot.source, s.snapshot.items, s.syncPc.index;
    OneUpsert(t, source, items, k);
    FirstConflictIsUnique(t, source, items, k, FirstConflictIndex(t, source, items));
  }

  /** Forward simulation, one statement at a time. */
  lemma StepRefines(st: System, a: Action)
    requires Inv(st) && Enabled(st, a)
    ensures a.Execute? ==> Simulates(st.db, st.sessions[a.session], Next(st, a).sessions[a.session], Next(st, a).db)
    ensures a.Abort? ==> Next(st, a).db == st.db && Next(st, a).sessions[a.session] == Finished(CallOf(st.sessions[a.session]), RolledBack)
  {
    var s := st.sessions[a.session];
    assert SessionOk(st, s);
    if a.Execute? {
      match s
      case Creating(_, _, _, _) => CreateRefines(st, s, a.choice);
      case Moderating(_, _, _, _, _, _) => ModerateRefines(st, s, a.choice);
      case Syncing(_, _, _) => SyncRefines(st, s, a.choice);
    }
  }

  lemma StepKeepsCall(st: System, a: Action)
    requires Inv(st) && Enabled(st, a)
    ensures CallOf(Next(st, a).sessions[a.session]) == CallOf(st.sessions[a.session])
  {
    StepRefines(st, a);
  }

  /** Main theorem: the finished calls of any run form a legal sequential history that ends
      in the run's committed tables. */
  lemma {:induction false} RunsAreLinearizable(st: System, run: seq<Action>)
    requires Inv(st) && IsRun(st, run)
    ensures Legal(st.db, History(st, run))
    ensures Sequential(st.db, History(st, run)) == After(st, run).db
  {
    if run != [] {
      var prefix, a := run[..|run| - 1], run[|run| - 1];
      RunsAreLinearizable(st, prefix);
      RunKeepsInv(st, prefix);
      StepRefines(After(st, prefix), a);
      var h, h' := History(st, prefix), History(st, run);
      assert h' != h ==> h'[..|h'| - 1] == h;
      forall n | 0 <= n < |h'| ensures LegalAt(st.db, h', n) {
        assert n < |h| ==> LegalAt(st.db, h, n);
        assert h'[..n] == h[..n];
      }
    }
  }

  /** Entry `n` of a history belongs to session `i`. */
  ghost predicate Speaks(history: seq<Entry>, n: int, i: nat) {
    0 <= n < |history| && history[n].session == i
  }

  ghost predicate Accounted(st: System, st': System, history: seq<Entry>, i: nat)
    requires i < |st.sessions| == |st'.sessions|
  {
    var s' := st'.sessions[i];
    && CallOf(s') == CallOf(st.sessions[i])
    && ((exists n :: Speaks(history, n, i)) <==> s'.Finished? && !s'.outcome.RolledBack?)
    && (forall n :: Speaks(history, n, i) ==> s'.Finished? && history[n].call == CallOf(s') && history[n].outcome == s'.outcome)
    && (forall n, m :: Speaks(history, n, i) && Speaks(history, m, i) ==> n == m)
  }

  /** The history is complete and exact: a call appears in it exactly once if it finished
      with a result, with that very result, and not at all if it is unfinished or rolled back. */
  lemma {:induction false} HistoryIsExact(st: System, run: seq<Action>, i: nat)
    requires Start(st) && IsRun(st, run) && i < |st.sessions|
    ensures |After(st, run).sessions| == |st.sessions|
    ensures Accounted(st, After(st, run), History(st, run), i)
  {
    StartIsInv(st);
    RunKeepsInv(st, run);
    if run == [] {
      assert st.sessions[i] == Begin(CallOf(st.sessions[i]));
    } else {
      var prefix, a := run[..|run| - 1], run[|run| - 1];
      HistoryIsExact(st, prefix, i);
      RunKeepsInv(st, prefix);
      var mid := After(st, prefix);
      StepAccounts(st, mid, a, History(st, prefix), i);
    }
  }

  /** One step keeps the books: it adds an entry exactly for a call that it finishes. */
  lemma StepAccounts(st: System, mid: System, a: Action, h: seq<Entry>, i: nat)
    requires Inv(mid) && Enabled(mid, a) && i < |st.sessions| == |mid.sessions| && Accounted(st, mid, h, i)
    ensures Accounted(st, Next(mid, a), h + (if TakesEffect(mid, a) then [EntryOf(mid, a)] else []), i)
  {
    StepRefines(mid, a);
    var h' := h + (if TakesEffect(mid, a) then [EntryOf(mid, a)] else []);
    assert forall n :: 0 <= n < |h| ==> h'[n] == h[n];
    assert forall n :: Speaks(h, n, i) ==> Speaks(h', n, i);
    if TakesEffect(mid, a) && a.session == i {
      assert Speaks(h', |h|, i);
    } else {
      assert forall n :: Speaks(h', n, i) ==> Speaks(h, n, i);
    }
  }

  /** No comment commits on an item that is not published with comments enabled at that
      very point, whatever synchronisations race with it. */
  lemma {:induction false} CommentsOnlyOnOpenPosts(st: System, run: seq<Action>, n: nat)
    requires Inv(st) && IsRun(st, run)
    requires n < |History(st, run)| && History(st, run)[n].outcome.Created?
    ensures var entry, before := History(st, run)[n], Sequential(st.db, History(st, run)[..n]);
      && entry.call.Create?
      && var input := entry.call.input;
         && input.slug in before.registry
         && before.registry[input.slug].status == Published && before.registry[input.slug].commentsEnabled
         && VisibleCount(before, input.slug) < entry.call.cap
         && entry.outcome.comment == Comment(entry.given.commentId, input.slug, input.author, input.body, input.visitor, Visible, None)
  {
    RunsAreLinearizable(st, run);
    assert LegalAt(st.db, History(st, run), n);
  }

  /** A moderation that succeeds leaves the comment as it is, or changes its status and hiding
      time and nothing else. */
  lemma {:induction false} TransitionsAreExact(st: System, run: seq<Action>, n: nat)
    requires Inv(st) && IsRun(st, run)
    requires n < |History(st, run)| && History(st, run)[n].outcome.Moderated?
    ensures var entry, before := History(st, run)[n], Sequential(st.db, History(st, run)[..n]);
      && entry.call.SetVisibility? && entry.call.id in before.comments
      && var current, desired := before.comments[entry.call.id], entry.call.desired;
         && (current.status == desired ==> entry.outcome.comment == current)
         && (current.status != desired ==>
               && entry.outcome.comment ==
                  current.(status := desired, hiddenAt := if desired == Hidden then Some(entry.given.now) else None)
               && (desired == Visible ==> VisibleCount(before, current.slug) < entry.call.cap))
  {
    RunsAreLinearizable(st, run);
    assert LegalAt(st.db, History(st, run), n);
  }
}
