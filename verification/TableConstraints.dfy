/** The CHECK constraints of the migrations, and that validated calls never violate them. */
module TableConstraints {
  import opened Base
  import opened Texts
  import opened Regexes
  import opened Scanners
  import opened Manifest
  import opened Registry
  import opened Database
  import opened Protocol
  import opened ProtocolInvariant
  import opened Refinement
  import opened CommentService

  const DATABASE_AUTHOR_LIMIT := 80
  const DATABASE_COMMENT_LIMIT := 2000

  /** `comments`: lengths in characters, trimmed text, and the hidden-state pairing. */
  predicate CommentChecks(c: Comment) {
    && 1 <= |c.author| <= 80 && c.author == Btrim(c.author)
    && 1 <= |c.body| <= 2000 && c.body == Btrim(c.body)
    && |c.visitor| == 32
    && ((c.status == Visible && c.hiddenAt.None?) || (c.status == Hidden && c.hiddenAt.Some?))
  }

  /** `content_items`, after the expanding migrations. */
  ghost predicate RegistryChecks(slug: Text, row: Row) {
    && 1 <= |slug| <= 100 && Matches(SLUG, slug)
    && 1 <= |row.kind| <= 50 && Matches(IDENTIFIER, row.kind)
    && row.status in {Draft, Published, Archived}
    && 1 <= |row.managedBy| <= 50 && Matches(IDENTIFIER, row.managedBy)
  }

  /** `admin_audit_events`. */
  predicate AuditChecks(e: AuditEvent) {
    && 1 <= |e.actor| <= 255
    && (e.requestId.None? || 1 <= |e.requestId.value| <= 128)
    && e.commentId > 0
    && e.previous != e.next
  }

  ghost predicate AllChecks(db: Db) {
    && (forall slug :: slug in db.registry ==> RegistryChecks(slug, db.registry[slug]))
    && (forall id :: id in db.comments ==> id > 0 && db.comments[id].id == id && CommentChecks(db.comments[id]))
    && (forall n :: 0 <= n < |db.audit| ==> AuditChecks(db.audit[n]))
  }

  /** Full Unicode trimming leaves nothing for the database's space trimming to remove. */
  lemma TrimmedIsBtrimmed(t: Text)
    ensures Btrim(TrimSpace(t)) == TrimSpace(t)
  {
    TrimEnds(t, (g: Glyph) => IsSpace(g));
    TrimIsIdentity(TrimSpace(t), (g: Glyph) => g == Rune(' '));
  }

  /** The creation service's validation, under limits that the configuration allows. */
  predicate PassesValidation(original: CreateInput, limits: Limits) {
    && ValidText(Trimmed(original).author, limits.maxAuthorChars) && limits.maxAuthorChars <= DATABASE_AUTHOR_LIMIT
    && ValidText(Trimmed(original).body, limits.maxCommentChars) && limits.maxCommentChars <= DATABASE_COMMENT_LIMIT
  }

  /** Every comment that passes the creation service's validation satisfies its row's checks. */
  lemma ValidatedCommentMeetsChecks(original: CreateInput, limits: Limits, id: int)
    requires PassesValidation(original, limits)
    ensures CommentChecks(NewComment(Trimmed(original), id))
  {
    TrimmedIsBtrimmed(original.author);
    TrimmedIsBtrimmed(original.body);
  }

  lemma {:induction false} IdentifierIsNonempty(t: Text)
    ensures Matches(SLUG, t) || Matches(IDENTIFIER, t) ==> t != []
  {
    SlugMeaning(t);
    IdentifierMeaning(t);
  }

  /** The manifest's JSON schema, except that it names one particular source. */
  ghost predicate SchemaAccepts(s: Snapshot) {
    && s.schemaVersion == 1 && s.mode == Str("full")
    && |s.source| <= 50 && Matches(IDENTIFIER, s.source)
    && Matches(REVISION, s.revision)
    && 1 <= |s.items| <= 10000
    && forall i :: 0 <= i < |s.items| ==>
         && |s.items[i].slug| <= 100 && Matches(SLUG, s.items[i].slug)
         && |s.items[i].kind| <= 50 && Matches(IDENTIFIER, s.items[i].kind)
         && s.items[i].status in {Draft, Published, Archived}
  }

  /** A snapshot is valid iff the schema accepts it and no slug occurs twice. */
  lemma ValidSnapshotsMeetSchema(s: Snapshot)
    ensures ValidSnapshot(s) <==>
      SchemaAccepts(s) && forall i, j :: 0 <= i < j < |s.items| ==> s.items[i].slug != s.items[j].slug
  {
    if SchemaAccepts(s) && forall i, j :: 0 <= i < j < |s.items| ==> s.items[i].slug != s.items[j].slug {
      forall i | 0 <= i < |s.items| ensures ValidItem(s.items[i]) {}
      assert Distinct(s.items);
    }
    if ValidSnapshot(s) {
      forall i | 0 <= i < |s.items| ensures ValidItem(s.items[i]) {}
    }
  }

  /** The validators admit a row iff the registry's constraints do: neither is stricter. */
  lemma ValidatorsAreConstraints(item: Item, source: Text)
    ensures RegistryChecks(item.slug, RowFor(item, source)) <==> ValidItem(item) && Bounded(IDENTIFIER, MAX_SOURCE_CHARS, source)
  {
    IdentifierIsNonempty(item.slug);
    IdentifierIsNonempty(item.kind);
    IdentifierIsNonempty(source);
  }

  /** Every item of a validated snapshot makes a row that satisfies the registry's checks. */
  lemma ValidatedItemMeetsChecks(snapshot: Snapshot, i: nat)
    requires ValidSnapshot(snapshot) && i < |snapshot.items|
    ensures RegistryChecks(snapshot.items[i].slug, RowFor(snapshot.items[i], snapshot.source))
  {
    var item := snapshot.items[i];
    assert ValidItem(item);
    IdentifierIsNonempty(item.slug);
    IdentifierIsNonempty(item.kind);
    IdentifierIsNonempty(snapshot.source);
  }

  /** Every event of a real transition under a validated audit context satisfies its checks:
      the context is measured in bytes, the constraint in characters. */
  lemma ValidatedEventMeetsChecks(c: Comment, desired: Visibility, context: AuditContext, id: int)
    requires ValidAuditContext(context) && c.id > 0 && c.status != desired
    ensures AuditChecks(NewEvent(c, desired, context, id))
  {
    ByteLenBounds(context.actor);
    ByteLenBounds(context.requestId);
  }

  /** What the services hand to the stores: trimmed validated creations, moderation under a
      validated context, and any snapshot, which the store validates itself. */
  ghost predicate Validated(call: Call) {
    match call
    case Create(input, _) => exists original, limits :: PassesValidation(original, limits) && input == Trimmed(original)
    case SetVisibility(_, _, _, context) => ValidAuditContext(context)
    case Sync(_) => true
  }

  lemma SyncMeetsChecks(t: Table, snapshot: Snapshot)
    requires ValidSnapshot(snapshot) && NoConflict(t, snapshot.source, snapshot.items)
    requires forall slug :: slug in t ==> RegistryChecks(slug, t[slug])
    ensures var r := Synced(t, snapshot.source, snapshot.items); forall slug :: slug in r ==> RegistryChecks(slug, r[slug])
  {
    var source, items := snapshot.source, snapshot.items;
    var r := Synced(t, source, items);
    forall slug | slug in r ensures RegistryChecks(slug, r[slug]) {
      SyncedAt(t, source, items, slug);
      assert Lookup(r, slug) == Some(r[slug]);
      if slug in SlugsOf(items) {
        var i :| 0 <= i < |items| && items[i].slug == slug;
        ItemAtIsUnique(items, i);
        ValidatedItemMeetsChecks(snapshot, i);
      } else {
        assert RegistryChecks(slug, t[slug]);
      }
    }
  }

  lemma AtomicMeetsChecks(db: Db, call: Call, given: Given)
    requires AllChecks(db) && Validated(call)
    requires call.Create? && Atomic(db, call, given).1.Created? ==> given.commentId > 0
    ensures AllChecks(Atomic(db, call, given).0)
  {
    match call
    case Create(input, cap) =>
      var original, limits :| PassesValidation(original, limits) && input == Trimmed(original);
      ValidatedCommentMeetsChecks(original, limits, given.commentId);
    case SetVisibility(id, desired, cap, context) =>
      if id in db.comments && db.comments[id].status != desired {
        ValidatedEventMeetsChecks(db.comments[id], desired, context, given.auditId);
      }
    case Sync(snapshot) =>
      if ValidSnapshot(snapshot) && NoConflict(db.registry, snapshot.source, snapshot.items) {
        SyncMeetsChecks(db.registry, snapshot);
      }
  }

  /** Validation implies the constraints over every run: no statement of a validated call
      ever publishes a row that its table would reject. */
  lemma {:induction false} ChecksHoldInEveryState(st: System, run: seq<Action>)
    requires Inv(st) && IsRun(st, run) && AllChecks(st.db)
    requires forall i :: 0 <= i < |st.sessions| ==> Validated(CallOf(st.sessions[i]))
    ensures AllChecks(After(st, run).db)
    ensures |After(st, run).sessions| == |st.sessions| && forall i :: 0 <= i < |st.sessions| ==> Validated(CallOf(After(st, run).sessions[i]))
  {
    if run != [] {
      var prefix, a := run[..|run| - 1], run[|run| - 1];
      ChecksHoldInEveryState(st, prefix);
      RunKeepsInv(st, prefix);
      StepMeetsChecks(After(st, prefix), a);
    }
  }

  lemma StepMeetsChecks(st: System, a: Action)
    requires Inv(st) && Enabled(st, a) && AllChecks(st.db)
    requires forall i :: 0 <= i < |st.sessions| ==> Validated(CallOf(st.sessions[i]))
    ensures AllChecks(Next(st, a).db)
    ensures forall i :: 0 <= i < |st.sessions| ==> Validated(CallOf(Next(st, a).sessions[i]))
  {
    var s := st.sessions[a.session];
    assert SessionOk(st, s) && Validated(CallOf(s));
    StepKeepsCall(st, a);
    StepRefines(st, a);
    if a.Execute? && Next(st, a).sessions[a.session].Finished? {
      CreatedIdIsPositive(st, s, a.choice);
      AtomicMeetsChecks(st.db, CallOf(s), GivenOf(s));
    }
  }

  lemma CreatedIdIsPositive(st: System, s: Session, choice: Choice)
    requires SessionOk(st, s)
    ensures var s' := SessionStep(st, s, choice);
      s.Creating? && s'.Finished? && s'.outcome.Created? ==> GivenOf(s).commentId > 0
  {
  }
}
