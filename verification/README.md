# portfolio-backend: a verified model

This project models the stateful and concurrent core of `portfolio-backend`, the Go service behind
packetcraft.dev, and proves its guarantees for every input, every run and every reachable state.
`dafny verify dfyconfig.toml` checks all of it.

## What is modelled

**The comment protocol.** Creating a comment, hiding or unhiding one, and synchronising the content
registry are three transactions that any number of sessions on any number of replicas run against
one PostgreSQL database. `Database` holds the tables and each call as one atomic step (the
sequential specification, `Atomic`). `Protocol` is the same calls statement by statement: private
program counters, the advisory post lock behind an arbitrary hash function, the `FOR SHARE`,
`FOR UPDATE` and upsert row locks, the synchronisation lock, commit, and rollback at any point. A
comment row and its uncommitted writes become visible only in the commit step. `ProtocolInvariant`
proves one inductive invariant by rely and guarantee. `Refinement`, `CommentCap`, `Progress`,
`Pagination` and `TableConstraints` draw the theorems from it: linearizability, the visible cap,
the audit trail, absence of deadlock, termination, cursor pagination over the changing table, and
that no validated call violates a CHECK constraint. `Records` traces every committed row to the
call that asked for it.

**The stores and services as objects.** `CommentStore.Store`, `ContentStore.Store`,
`CommentService.Service`, `RateLimit.AssignmentLimiter`, `Views.ViewStore`,
`MigrationRunner.Database` and `Jwks.JWKSCache` are classes with the source's fields and loops.
Each method is proved against a specification function of the old state, and states the fields
that it writes; the properties over runs are proved about that function. `CommentHandler` adds the
public list handler and the client that follows its cursors.

**The scanners.** `Scanners` proves the hand-written loops against regular expressions with their
textbook meaning (`Regexes`), the ones that the migrations and the JSON schema state.

### Semantics taken as given

- READ COMMITTED: a statement sees what is committed when it executes, plus its own transaction's
  writes. A locking statement waits for conflicting locks and then sees the latest committed rows.
- Row locks and transaction-level advisory locks are kept until commit or rollback and released in
  that same instant. The two-int and the one-bigint advisory key spaces are disjoint. An upsert
  locks the row of its key even when its `WHERE` clause leaves the row alone.
- `hashtext` is an arbitrary function, so different posts may share a lock key.
- Identity values only grow, may have gaps, and are not given back by a rollback.
- No statement deletes a comment, an audit event or a registry row.
- The view statement, with both of its data-modifying parts, is one atomic step.
- A Go string is a sequence of pieces as `range` decodes them: Unicode scalar values, and single
  bytes that are not valid UTF-8 (`Texts`). Time is an integer.

### Where the code and its documents differ

- `api/content-registry.schema.json:15-17` fixes `source` to one constant, and the schema says
  nothing about two items with the same slug. The code accepts every lower-kebab source and rejects
  duplicates (`internal/content/manifest.go:153-175`). The model follows the code.

## Model

| member | source | states |
|---|---|---|
| ProtocolInvariant.StepKeepsInv | internal/comments/postgres/store.go:28-87 | The invariant is inductive: any statement of any session, and any rollback, keeps the tables consistent, keeps every fact another session has read under its locks, and keeps conflicting locks and uncommitted ids apart |
| ProtocolInvariant.RunKeepsInv | internal/comments/postgres/store.go:28-87 | Every state of every run of any number of sessions satisfies the invariant |
| ProtocolInvariant.StaysOk | internal/comments/postgres/store.go:36-62 | Rely and guarantee: a policy row read FOR SHARE, a count and a row read under the post lock, and a half-done synchronisation stay valid while another session with compatible locks commits |
| ProtocolInvariant.CountIsStable | internal/comments/postgres/store.go:36-45 | The visible count of a post cannot change while another session without that post's lock commits |
| ProtocolInvariant.StepIsFramed | internal/content/postgres/store.go:60-111 | A commit changes a registry row only under its row lock and the sync lock, and a comment or its audit trail only under its post's lock; posts and comments never disappear |
| ProtocolInvariant.CreateStepOk | internal/comments/postgres/store.go:38-87 | Each creation statement leaves true facts behind; in particular the id given at insert exceeds every committed id of the post although it is not committed yet |
| ProtocolInvariant.ModerateStepOk | internal/comments/postgres/moderation.go:60-130 | Each moderation statement leaves true facts behind: the row re-read FOR UPDATE is still the committed row when it is updated and audited |
| ProtocolInvariant.SyncStepOk | internal/content/postgres/store.go:60-111 | After k statements of the upsert loop and any part of the archive pass, the working view is exactly the registry with that part synchronised, and both counters are exact |
| ProtocolInvariant.ArchiveStarts | internal/content/postgres/store.go:96-106 | The archive condition evaluated after the upsert loop selects exactly the source's absent, not yet archived rows of the original registry |
| ProtocolInvariant.CommitIsConsistent | internal/comments/postgres/moderation.go:104-130 | Every commit leaves ids, the hidden-state pairing and each comment's replayable audit trail consistent |
| ProtocolInvariant.TransitionIsConsistent | internal/comments/postgres/moderation.go:104-126 | The update and its audit event, committed together, extend the trail so that replaying it gives the new status |
| Refinement.StepRefines | internal/comments/postgres/store.go:38-87 | Forward simulation: the statement that ends a call does to the committed tables what the whole call does atomically, with the same outcome; every other statement, and every rollback, changes no committed row |
| Refinement.CreateRefines | internal/comments/postgres/store.go:38-89 | The last creation statement is the atomic creation: it commits one visible comment with the caller's slug, author, body and visitor and changes nothing else; a refusal is the atomic refusal at the read that made it |
| Refinement.ModerateRefines | internal/comments/postgres/moderation.go:60-130 | The last moderation statement is the atomic transition: only status and hiding time of the comment change, and one event with the caller's actor and request is added; or it is the atomic no-op or refusal |
| Refinement.UpdateStatement | internal/comments/postgres/moderation.go:104-110 | The update sets the status, and the hiding time to its clock reading on a hide and to none on an unhide, and keeps every other field |
| Refinement.SyncRefines | internal/content/postgres/store.go:48-111 | The commit is the atomic synchronisation with exact counts; an ownership conflict found at any index is the atomic failure |
| Refinement.ConflictIsFirst | internal/content/postgres/store.go:66-76 | An owner check that fails on the partly upserted view names the first conflicting item of the original registry |
| Refinement.RunsAreLinearizable | internal/comments/postgres/store.go:38-87 | Main theorem: for every interleaving with rollbacks and lock-hash collisions, the finished calls in their finishing order form a legal sequential history that ends in the run's committed tables |
| Refinement.HistoryIsExact | internal/comments/postgres/moderation.go:60-130 | A call is in that history exactly once, with its own arguments and result, iff it finished with a result; unfinished and rolled-back calls are not in it |
| Refinement.CommentsOnlyOnOpenPosts | internal/comments/postgres/store.go:47-80 | Every comment that commits is its caller's input, visible, on an item that is published with comments enabled at that very point and below the cap |
| Refinement.TransitionsAreExact | internal/comments/postgres/moderation.go:85-130 | Every successful moderation at its place in the history leaves the comment as it is or changes its status and hiding time only, and an unhide only below the cap |
| Records.EveryCommentWasSubmitted | internal/comments/postgres/store.go:76-89 | Provenance over runs: each comment committed during a run is some finished creation's input, field by field |
| Records.TextNeverChanges | internal/comments/postgres/moderation.go:104-110 | Between any two points of a run a comment's post, author, body and visitor never change |
| Records.EveryEventWasRequested | internal/comments/postgres/moderation.go:114-126 | Each audit event added during a run carries the actor, request, comment and new state of some finished moderation |
| Records.TrailGrows | internal/comments/postgres/moderation.go:118-126 | No step removes or rewrites an audit event, and a step adds at most one |
| CommentCap.CapHolds | internal/comments/postgres/store.go:64-87 | If every caller's cap is at most k and posts start within k, committed plus pending visible comments of every post stay at most k in every reachable state |
| CommentCap.CapForPost | internal/comments/postgres/store.go:64-74 | The same for one post, as a bound on the set of its committed comments with status visible |
| CommentCap.PendingIsSingle | internal/comments/postgres/moderation.go:92-113 | At most one session at a time is between its count and its commit on a post, and only below its cap |
| CommentCap.CommitAddsPending | internal/comments/postgres/moderation.go:92-113 | A commit raises a post's visible count by at most the one comment its session had pending |
| CommentCap.AuditTrailReplays | internal/comments/postgres/moderation.go:76-130 | In every reachable state, each comment's audit events replayed from "visible" give its status, in ascending id order, and hidden_at is set iff it is hidden |
| CommentCap.TrailAlternates | internal/comments/postgres/moderation.go:114-126 | A replayable trail alternates hide and unhide, starting with hide, with matching previous and new states |
| CommentCap.AuditStep | internal/comments/postgres/moderation.go:85-126 | A step writes one event for a comment iff it changes the comment's status; refused, repeated and rolled-back moderation writes none |
| CommentCap.EventsCountTransitions | internal/comments/postgres/moderation.go:85-126 | Over any run, the number of a comment's events is the number of its real transitions |
| Progress.WaitsGoDown | internal/comments/postgres/store.go:38-62 | Whoever a session waits for is strictly further along the order advisory lock, policy row, written rows |
| Progress.NoDeadlock | internal/content/postgres/store.go:60-106 | In no reachable state do sessions wait for each other in a cycle |
| Progress.ForUpdateNeverBlocks | internal/comments/postgres/moderation.go:67-81 | The FOR UPDATE read of moderation never waits: the post's lock already excludes every rival |
| Progress.SomeoneCanExecute | internal/comments/postgres/store.go:38-87 | From any unfinished session in any reachable state, following the waits finds a session whose next statement can execute |
| Progress.ActionsDecrease | internal/content/postgres/store.go:64-111 | Every action decreases the remaining statements, or keeps them and decreases the rows left to archive, so every run is finite |
| Progress.EverythingCanFinish | internal/comments/postgres/moderation.go:52-130 | From every reachable state some schedule without any rollback completes all calls |
| Pagination.ProtocolEvolves | internal/comments/postgres/store.go:36-87 | Between any two points of a run, comments stay on their post and every newly committed comment of a post has an id above all earlier ones of that post |
| Pagination.PagesOfRunAreWalk | internal/comments/postgres/store.go:92-125 | Pages of any filter read at ascending points of any run, each with the cursor that the one before returned, form a walk over tables that evolve as above for every post, so all walk theorems hold while creations, moderation, synchronisations and rollbacks go on |
| Pagination.WalkDescends | internal/httpapi/comments.go:58-87 | The ids of a walk through the returned cursors strictly decrease, so nothing repeats, for any filter and any changes between pages |
| Pagination.WalkIsOld | internal/httpapi/comments.go:58-87 | A walk over one post returns nothing that was committed after its first page was read |
| Pagination.SelectedCommentsAppearOnce | internal/httpapi/admin_comments.go:67-77 | A completed walk returns each comment that its filter (visible on a post, or the moderation filter) selected at every read exactly once, for explicit limits and the default one, over arbitrarily changing tables |
| Pagination.WalkIsBounded | internal/httpapi/comments.go:78-85 | A walk over one post has at most one page more than the post had comments when it began |
| Pagination.WalkEnds | internal/httpapi/admin_comments.go:67-77 | Any walk ends: the first id returned bounds the number of pages after the first, whatever is created meanwhile |
| CommentStore.PageIsUnique | internal/comments/postgres/store.go:98-106 | The table, the cursor and the limit determine the page |
| CommentStore.Store.CreateVisibleIfUnderLimit | internal/comments/postgres/store.go:23-90 | Run alone, creation is the atomic creation: the new row has the input's slug, author, body and visitor and is visible and newest of its post; refusals change nothing |
| CommentStore.Store.SetVisibility | internal/comments/postgres/moderation.go:45-131 | Run alone, moderation is the atomic transition (status and hiding time change, every other field stays, one exact audit event), the no-op, or a refusal that changes nothing |
| CommentStore.Store.Transition | internal/comments/postgres/moderation.go:104-130 | The update of status and hiding time and the audit event with its actor, request and states, and nothing else, change together |
| CommentStore.Store.ListVisible | internal/comments/postgres/store.go:92-125 | The page holds visible comments of the post below the cursor, newest first, with nothing skipped, and is short only when nothing is left |
| CommentStore.Store.ListForModeration | internal/comments/postgres/moderation.go:12-43 | The same for the moderation query, over all posts and an optional status, on the table as it stands |
| CommentStore.Store.List | internal/comments/postgres/store.go:112-124 | The appending loop builds exactly that page |
| CommentStore.TransitionKeepsConsistency | internal/comments/postgres/moderation.go:104-126 | A transition with the next audit id keeps the tables consistent |
| CommentService.Service.RequireCommentsEnabled | internal/content/content.go:55-72 | Reports the first reason why a slug takes no comments: malformed, missing or unpublished, disabled |
| CommentService.Service.Create | internal/comments/comments.go:71-91 | Succeeds iff the slug is well formed and names a published item with comments enabled, the trimmed author and body are nonempty valid UTF-8 within their limits, and fewer visible comments than the cap exist; then exactly one visible comment with that slug, trimmed author, trimmed body and visitor is added. Otherwise the error is that of the first failing guard and the tables stay as they were |
| CommentService.Service.ListVisible | internal/comments/comments.go:93-110 | Succeeds iff cursor and limit are in range and the post is open, otherwise reports the first of these that fails; the page of the requested size, or 25, holds visible comments of the post below the cursor, newest first, none skipped |
| CommentService.Service.ListForModeration | internal/comments/moderation.go:38-54 | Succeeds iff the status is empty, "visible" or "hidden" and cursor and limit are in range, otherwise reports the first that fails; the page holds the comments of that status below the cursor, newest first, none skipped |
| CommentService.Service.Moderate | internal/comments/moderation.go:56-82 | Hide and unhide succeed iff the id is positive, the audit context valid, the comment there and, for a real unhide, the post below its cap; then status and hiding time change, every other field stays, and one event with this actor and request is added. Otherwise the error is that of the first failing guard and nothing changes |
| CommentHandler.Respond | internal/httpapi/comments.go:78-85 | Rows are presented one for one in order with their own id, author and body, and the cursor is the id of the last row presented iff the page may have a successor |
| CommentHandler.HandleList | internal/httpapi/comments.go:58-87 | Succeeds iff both parameters are absent or positive and in range and the post is open, otherwise reports the first failing check; the response shows visible comments of the post below the cursor, newest first, none skipped, with the cursor of the last one shown |
| CommentHandler.ClientSeesEachCommentOnce | internal/httpapi/comments.go:58-87 | End to end: a client that sends back each printed next_before_id until none is returned sees strictly descending ids, and every comment that stays visible throughout exactly once |
| CommentHandler.ClientFinishes | internal/httpapi/comments.go:82-85 | Such a client is done after at most as many requests as the first id shown says, plus one |
| CommentHandler.OptionalPositiveInt64 | internal/httpapi/comments.go:194-203 | Zero exactly for an absent parameter, otherwise a positive 64-bit value or an invalid-cursor error |
| CommentHandler.ParameterMeaning | internal/httpapi/comments.go:194-203 | A present parameter is accepted iff it is the decimal of a positive 64-bit integer, with an optional plus sign and leading zeros; every other string is refused |
| CommentHandler.CursorRoundTrip | internal/httpapi/comments.go:82-85 | Any positive 64-bit id printed as a cursor is read back as that id |
| TableConstraints.ValidatedCommentMeetsChecks | migrations/000003_comments.sql:10-19 | A comment that passes the service's validation with limits up to 80 and 2000 satisfies every CHECK of its table; full Unicode trimming implies space trimming |
| TableConstraints.ValidatedItemMeetsChecks | migrations/000007_expand_content_registry.sql:4-9 | Every item of a validated snapshot makes a row that satisfies every CHECK of the registry |
| TableConstraints.ValidatorsAreConstraints | migrations/000002_content_registry.sql:7-12 | The validators admit a row's slug, kind, status and source iff the constraints do |
| TableConstraints.ValidSnapshotsMeetSchema | api/content-registry.schema.json:7-61 | A snapshot is valid iff the schema accepts it, for any source, and no slug occurs twice |
| TableConstraints.ValidatedEventMeetsChecks | migrations/000006_admin_audit.sql:11-17 | An event of a real transition under a validated context satisfies every CHECK of its table; byte limits imply the character limits |
| TableConstraints.SyncMeetsChecks | migrations/000008_content_manifest_sync.sql:3-9 | A synchronisation of a valid snapshot, archived rows included, keeps every CHECK of the registry |
| TableConstraints.ChecksHoldInEveryState | migrations/000003_comments.sql:10-19 | Over every run of calls that passed the services' validation, no row ever becomes visible that its table would reject |
| Scanners.ValidSlug | internal/content/content.go:74-94 | Accepts exactly the strings of at most 100 characters matching `[a-z0-9]+(-[a-z0-9]+)*` |
| Scanners.ScanSlug | internal/content/content.go:79-93 | The previous-hyphen loop decides the hyphen automaton |
| Scanners.ValidIdentifier | internal/content/manifest.go:188-208 | Accepts exactly `[a-z][a-z0-9]*(-[a-z0-9]+)*` up to the maximum, or the slug language when the first character may be a digit |
| Scanners.ScanIdentifier | internal/content/manifest.go:193-207 | The loop with the first-letter rule decides the automaton and that rule |
| Scanners.ValidRevision | internal/content/manifest.go:210-220 | Accepts exactly `[a-f0-9]{7,64}` |
| Scanners.SlugMeaning | migrations/000002_content_registry.sql:7-10 | The stored regular expression for slugs and the hyphen automaton describe the same language |
| Scanners.IdentifierMeaning | migrations/000007_expand_content_registry.sql:6-9 | The stored regular expression for kinds and sources is a letter followed by the automaton |
| Scanners.RevisionMeaning | api/content-registry.schema.json:20 | The schema's bounded repetition is length 7 to 64 over hexadecimal digits |
| Scanners.AfterAlnumMeaning | migrations/000002_content_registry.sql:7-10 | The automaton after a letter or digit accepts exactly `[a-z0-9]*(-[a-z0-9]+)*` |
| Scanners.PassesPrechecks | internal/content/content.go:75-77 | The byte-length and trim tests reject no string of the language that the character bound admits |
| Texts.TrimMeaning | internal/comments/comments.go:76-84 | Trimming removes exactly the spaces at both ends, and nothing in between |
| Texts.TrimIsUnique | internal/comments/comments.go:76-84 | Nothing else is a text without its end spaces |
| Texts.BtrimMeaning | migrations/000003_comments.sql:11-13 | The constraint's trim test holds iff the text neither starts nor ends with U+0020 |
| Texts.ByteLenCountsBytes | internal/comments/moderation.go:84-86 | Length in bytes counts the bytes of the UTF-8 encoding |
| Manifest.ValidateSnapshot | internal/content/manifest.go:146-181 | Accepts exactly the snapshots whose header and items are in their languages and whose slugs are distinct, and otherwise names the first failing header check or the first item at fault with its first failing check |
| Manifest.ValidateItems | internal/content/manifest.go:163-180 | The loop with its map of seen slugs finds a fault iff there is one, at the first faulty item and its first failing check |
| Manifest.ValidKind | internal/content/manifest.go:183-186 | Accepts exactly the identifiers of at most 50 characters |
| ContentStore.Store.ContentState | internal/content/postgres/store.go:25-40 | Published iff there is a published row, comments enabled iff there is a row that enables them, so open iff one row does both |
| ContentStore.Store.SyncSnapshot | internal/content/postgres/store.go:45-112 | The method is the atomic synchronisation of the protocol's specification. It succeeds iff the snapshot is valid and owns all its slugs; then the registry mirrors the snapshot and both counts are exact. Any failure leaves the whole registry as it was: an invalid snapshot reports its first fault, a valid one the first conflicting slug |
| Registry.UpsertItems | internal/content/postgres/store.go:64-94 | The upsert loop ends with exactly the items' rows and the number of rows that differed, or with the first conflicting slug |
| Registry.OneUpsert | internal/content/postgres/store.go:66-94 | One round of the loop on the working view finds exactly the conflicts of the original table and changes a row iff it differed |
| Registry.SyncedRows | internal/content/postgres/store.go:64-111 | Every manifest row equals its item, the source's other rows are archived with kind and policy kept, other sources' rows are untouched, and no row appears or disappears otherwise |
| Registry.CountsAreExact | internal/content/postgres/store.go:93-106 | Changed and archived rows are disjoint and together exactly the rows that differ afterwards |
| Registry.SyncIsIdempotent | internal/content/postgres/store.go:78-106 | Applying a snapshot again succeeds, changes nothing and reports (0, 0) |
| Registry.SyncIgnoresItemOrder | internal/content/postgres/store.go:66-106 | Permuting the items gives the same verdict, registry and counts |
| Registry.LastSnapshotWins | internal/content/postgres/store.go:64-111 | After any attempts by any sources, a source's rows are exactly those of its last successful snapshot: every item has its row and every other row of the source is archived |
| Registry.MirroredSlugs | internal/content/postgres/store.go:64-111 | Hence the source's published slugs, and its slugs open for comments, are exactly those of that snapshot |
| Registry.OtherSourcesKeepTheirRows | internal/content/postgres/store.go:70-87 | A synchronisation neither changes another source's rows nor gives it new ones |
| Registry.SyncsCommute | internal/content/postgres/store.go:64-111 | Successful synchronisations of two sources with disjoint slugs commute, both verdicts and all four counts included |
| RateLimit.AssignmentLimiter.Allow | internal/platform/ratelimit/assignment.go:38-82 | The mutating call makes the decision and the new table of the specification |
| RateLimit.AssignmentLimiter.RemoveExpired | internal/platform/ratelimit/assignment.go:85-91 | The deleting sweep, in any visiting order, keeps exactly the windows that have not ended |
| RateLimit.AdmissionRule | internal/platform/ratelimit/assignment.go:52-81 | An active visitor is admitted iff its count is below the limit, any other iff fewer than maxKeys windows are live |
| RateLimit.LazySweepIsUnobservable | internal/platform/ratelimit/assignment.go:67-75 | For nondecreasing times the lazy-sweep limiter answers like the ideal one that forgets each window the instant it ends, from any two tables that agree on live windows |
| RateLimit.LimiterIsIdeal | internal/platform/ratelimit/assignment.go:27-82 | In particular from the empty table of the constructor, for every configuration |
| RateLimit.BurstBound | internal/platform/ratelimit/assignment.go:52-81 | At most limit * (ceil((to - from) / window) + 1) calls of one visitor are allowed with times in [from, to], evictions and re-admissions included |
| RateLimit.ShortBurst | internal/platform/ratelimit/assignment.go:52-65 | At most 2 * limit calls in any span shorter than a window |
| RateLimit.AllowedIsBudgeted | internal/platform/ratelimit/assignment.go:52-81 | Allowed calls never exceed the rest of the current window plus whole windows up to the end |
| RateLimit.MemoryIsBounded | internal/platform/ratelimit/assignment.go:67-81 | With any clock order the table keeps at most maxKeys entries and every count in 1..limit |
| Views.ViewStore.RecordView | internal/reactions/postgres/views.go:19-49 | A visit is counted iff the visitor has no row or one at least a window old; then the row takes its time and the counter goes up by one together. A foreign-key failure, exactly when an unregistered slug needs a new row, changes neither |
| Views.ViewStore.Count | internal/reactions/postgres/views.go:51-60 | Reads the cached counter, zero when there is none |
| Views.CounterIsConserved | internal/reactions/postgres/views.go:29-43 | For any interleaving and clock order, a post's counter is the number of statements that returned true for it |
| Views.StatsRowIffVisitorRow | internal/reactions/postgres/views.go:29-42 | A post has a stats row iff it has some visitor row |
| Views.CountedAreSpaced | internal/reactions/postgres/views.go:32-34 | For any clock order, the visitor row holds the latest counted time and counted times are pairwise at least a window apart |
| Views.ViewsAreBounded | internal/reactions/postgres/views.go:26-34 | At most floor((to - from) / window) + 1 views of one visitor and post are counted in [from, to] |
| Views.GreedyStaysAhead | internal/reactions/postgres/views.go:26-48 | No spaced choice of calls is larger than the counted one, and one of equal size ends no earlier |
| Views.CountingIsOptimal | internal/reactions/postgres/views.go:26-48 | In time order, the counted calls form a largest set of calls pairwise at least a window apart |
| Migrations.Load | internal/platform/migrate/migrate.go:137-191 | Succeeds iff all files are good and their versions are a permutation of 1..n with n >= 1; then place v holds number, name, contents and digest of contents of the one file with number v. Otherwise it reports the first bad file, an empty directory or the first break of the sequence |
| Migrations.LoadedFiles | internal/platform/migrate/migrate.go:149-190 | Every migration is read from a file and every file is read as the migration in the place of its number, which no other file has |
| Migrations.FilenameMeaning | internal/platform/migrate/migrate.go:22-22 | The filename matcher accepts exactly the compiled pattern |
| Migrations.CollectFiles | internal/platform/migrate/migrate.go:143-173 | Collects exactly the migrations read from the files, each with its file's number, name, contents and digest, in listing order, or names the first bad file and its first failing check |
| Migrations.SortByVersion | internal/platform/migrate/migrate.go:175-177 | The result is an ascending permutation |
| Migrations.SortedVersions | internal/platform/migrate/migrate.go:175-188 | An ascending arrangement reads 1..n iff the versions are a permutation of 1..n |
| Migrations.LoadIsUnique | internal/platform/migrate/migrate.go:183-190 | There is only one arrangement that passes the scan |
| Migrations.ListingOrderIsIrrelevant | internal/platform/migrate/migrate.go:138-190 | Any reordering of the directory listing loads to the same migrations |
| MigrationRunner.Database.Up | internal/platform/migrate/migrate.go:36-135 | Succeeds iff the directory loads, the lock and history statements succeed, the directory extends the recorded history, and all new scripts and the commit succeed; then the rows record exactly the directory's files and the contents of the new ones have been executed in the order of their numbers. Otherwise nothing changes and the error names the first obstacle |
| MigrationRunner.CheckHistory | internal/platform/migrate/migrate.go:80-101 | In any map order, accepts iff every recorded version, name and checksum matches; an error names a row that really does not match |
| MigrationRunner.ApplyNew | internal/platform/migrate/migrate.go:103-124 | Executes exactly the unrecorded scripts once each in order and records exactly them |
| MigrationRunner.HistoryIsFaithful | internal/platform/migrate/migrate.go:57-128 | Over any runs, directories and failures, the rows are versions 1..n and the schema is those n scripts executed once each in order |
| MigrationRunner.SchemaIsDirectory | internal/platform/migrate/migrate.go:90-128 | With collision-free checksums, after a successful run the rows record exactly the directory's files and the schema is their contents executed once each in the order of their numbers, whatever earlier directories contained |
| MigrationRunner.HistoryOnlyGrows | internal/platform/migrate/migrate.go:57-128 | No run ever changes or removes a recorded row |
| Jwks.DecodeExponent | internal/adminauth/jwks.go:136-139 | The loop computes the big-endian value of section 6.3.1.2 of RFC 7518, below 2^32 |
| Jwks.RSAKey | internal/adminauth/jwks.go:124-145 | Yields a key iff the entry is a supported signing key with a modulus of at least 2048 bits and an odd exponent of at least 3; the key has that modulus and that exponent |
| Jwks.BigEndianMeaning | internal/adminauth/jwks.go:136-140 | The value of a byte string is determined by its single bytes and by concatenation, base 256, most significant first |
| Jwks.BitLenMeaning | internal/adminauth/jwks.go:141-141 | The bit length of n > 0 is the k with 2^(k-1) <= n < 2^k |
| Jwks.JWKSCache.Key | internal/adminauth/jwks.go:45-65 | A call answers and replaces the cache as the specification says, on every path; an implausible key ID is refused and a fresh cached key answered without touching the cache |
| Jwks.JWKSCache.Refresh | internal/adminauth/jwks.go:67-113 | Replaces keys and time together iff the document is a usable whole key set; otherwise changes neither |
| Jwks.BuildKeySet | internal/adminauth/jwks.go:96-109 | The loop accepts exactly nonempty documents whose every key is usable and whose key IDs are distinct (section 5 of RFC 7517) |
| Jwks.CollectMeaning | internal/adminauth/jwks.go:96-106 | The built map holds exactly the document's keys under their own IDs |
| Jwks.CacheIsLastRefresh | internal/adminauth/jwks.go:107-112 | After any calls the cache is empty or exactly the last refresh's whole key set and time |
| Jwks.KeysHaveOneFreshSource | internal/adminauth/jwks.go:46-65 | With an ascending clock a returned key comes from one whole duplicate-free key set, fetched in this call or less than ttl ago and not replaced since |
| Jwks.OnlyRefreshesMoveTheCache | internal/adminauth/jwks.go:54-59 | Over any stretch of calls without a refresh, whatever hits and failures it holds, keys and fetch time stay what they were |
| Jwks.CacheAgreesWithFetching | internal/adminauth/jwks.go:46-65 | While the endpoint serves one document, and from any moment at which the cache is empty or holds that document's keys, answers equal fetching it every time |
| Jwks.AgreesAfterRefresh | internal/adminauth/jwks.go:57-64 | That is so from the first refresh under the document on, whatever was cached before |
| Jwks.AgreementCondition | internal/adminauth/jwks.go:53-56 | An answer agrees with fetching iff it is not served from the cache or the cached key is the document's own |
| Jwks.WithdrawnKeyIsStillAnswered | internal/adminauth/jwks.go:53-56 | Without that condition agreement fails: a key withdrawn by a new document is still answered within ttl |

## Left out

- HTTP routing, JSON encoding and decoding (`ReadManifest` and the request bodies included), logging, panic recovery, health checks, configuration loading, shutdown and the smoke command: library behaviour and I/O.
- Cryptography: SHA-256, HMAC, RSA verification, JWT claims and base64. Digests are a function parameter, collision-free only where a lemma says so; a JWK's modulus and exponent arrive decoded or as a failure.
- Likes, client addresses and user-agent normalisation: each is a single simple statement or walk.
- PostgreSQL's internals: the semantics listed above are assumed. A lost connection during commit, where the client cannot tell whether the commit happened, is not modelled; a failed commit is a rollback.
- Strings that PostgreSQL itself rejects as parameters (the NUL character, invalid encodings) are not modelled; such a statement fails, which is a rollback in the model.
- `created_at`, `updated_at` and `applied_at`, on which nothing depends, and the saturation of Go's time subtraction.
- Context deadlines and lock timeouts: their effect is a rollback at an arbitrary statement, which the protocol allows.
- `SyncService.Sync` and `RequirePublishedContent` repeat checks of the members that they stand in front of.
- Pagination.WalkIsOld: is claimed for one post's visible comments only; ids of different posts may commit out of order, so a moderation walk may return a comment committed after its first page. The handler of the moderation listing itself is not modelled; its cursor rule is `NextCursor`.
- CommentService.Service.Create: runs its registry check and the store's transaction without other sessions in between; interleavings are covered by the protocol, whose creation re-checks the policy under its locks.
- RateLimit.AssignmentLimiter.Allow: entries are values in the map field rather than shared pointers, the mutex is the atomicity of the method, and the key type is a parameter instead of 32 bytes.
- Migrations.SortByVersion: the library sort is modelled by an insertion sort; the regular-expression and file-system libraries are not modelled.
- MigrationRunner.Database.Up: the migration lock makes runs sequential and is not modelled itself; executing a script is an arbitrary function on schemas that may fail, and scripts that alter the history table are not considered.
- Views.CountedAreSpaced: needs a positive window, which the configuration guarantees.
- Views.ViewStore.RecordView: whether the slug is in the registry is a parameter; for an unregistered slug the model keeps the foreign-key failure.
- Jwks.KeysHaveOneFreshSource: needs clock readings that do not go backwards; the other cache lemmas hold for any clock.
- CommentHandler.ClientSeesEachCommentOnce: needs comment ids within 64 bits, which the identity column's type guarantees; `created_at` is not part of the modelled response.
- TableConstraints.ValidatedCommentMeetsChecks: needs configured limits of at most 80 and 2000 characters, the table's own bounds.
