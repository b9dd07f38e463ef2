/** `Up`: checksummed, append-only history with all-or-nothing runs. */
module MigrationRunner {
  import opened Base
  import opened Texts
  import opened Migrations

  /** One row of `schema_migrations`. */
  datatype Applied = Applied(version: int, name: Text, checksum: Digest)

  /** Executing a script on a schema; `None` is an SQL error. */
  type Engine<!S> = (S, Text) -> Option<S>

  function RowOf(m: Migration): Applied {
    Applied(m.version, m.name, m.checksum)
  }

  function Scripts(ms: seq<Migration>): seq<Text> {
    seq(|ms|, i requires 0 <= i < |ms| => ms[i].sql)
  }

  function RowsOf(ms: seq<Migration>): seq<Applied> {
    seq(|ms|, i requires 0 <= i < |ms| => RowOf(ms[i]))
  }

  /** Scripts executed in order. */
  function Execute<S>(engine: Engine<S>, schema: S, scripts: seq<Text>): Option<S> {
    if scripts == [] then Some(schema)
    else
      var before := Execute(engine, schema, scripts[..|scripts| - 1]);
      if before.None? then None else engine(before.value, scripts[|scripts| - 1])
  }

  lemma {:induction false} ExecuteAppend<S>(engine: Engine<S>, schema: S, a: seq<Text>, b: seq<Text>)
    requires Execute(engine, schema, a).Some?
    ensures Execute(engine, schema, a + b) == Execute(engine, Execute(engine, schema, a).value, b)
  {
    if b == [] {
      assert a + b == a;
    } else {
      ExecuteAppend(engine, schema, a, b[..|b| - 1]);
      assert (a + b)[..|a + b| - 1] == a + b[..|b| - 1];
    }
  }

  lemma {:induction false} ExecutePrefix<S>(engine: Engine<S>, schema: S, scripts: seq<Text>, n: nat)
    requires n <= |scripts| && Execute(engine, schema, scripts).Some?
    ensures Execute(engine, schema, scripts[..n]).Some?
  {
    if n < |scripts| {
      ExecutePrefix(engine, schema, scripts[..|scripts| - 1], n);
      assert scripts[..|scripts| - 1][..n] == scripts[..n];
    } else {
      assert scripts[..n] == scripts;
    }
  }

  /** The directory extends the recorded history: same version, name and checksum row by row. */
  predicate Extends(rows: seq<Applied>, ms: seq<Migration>) {
    |rows| <= |ms| && forall i :: 0 <= i < |rows| ==> rows[i] == RowOf(ms[i])
  }

  /** Rows are recorded for versions 1..n in order. */
  predicate InSequence(rows: seq<Applied>) {
    forall i :: 0 <= i < |rows| ==> rows[i].version == i + 1
  }

  /** Failures outside the scripts' own meaning: before the history is known (connection,
      lock, history table, history read), while applying migration `i`, or at the commit. */
  datatype Faults = Faults(setup: bool, statements: set<int>, commit: bool)

  predicate FaultFree(faults: Faults, rows: seq<Applied>, ms: seq<Migration>) {
    !faults.setup && !faults.commit && forall i :: |rows| <= i < |ms| ==> i !in faults.statements
  }

  /** What a run needs in order to succeed on loaded migrations. */
  predicate Applicable<S>(engine: Engine<S>, rows: seq<Applied>, schema: S, ms: seq<Migration>, faults: Faults) {
    Extends(rows, ms) && FaultFree(faults, rows, ms) && Execute(engine, schema, Scripts(ms[|rows|..])).Some?
  }

  /** What `Load` makes of a directory. */
  ghost function Loaded(entries: seq<FileEntry>, digest: Text -> Digest): Option<seq<Migration>> {
    if exists ms :: LoadsTo(entries, digest, ms) then
      var ms :| LoadsTo(entries, digest, ms);
      Some(ms)
    else None
  }

  /** One invocation: the directory it finds and the faults it meets. */
  datatype Run = Run(entries: seq<FileEntry>, faults: Faults)

  /** The database, with the scripts that successful runs executed on it so far. */
  datatype History<S> = History(rows: seq<Applied>, schema: S, scripts: seq<Text>)

  ghost predicate Succeeds<S>(engine: Engine<S>, digest: Text -> Digest, h: History<S>, run: Run) {
    var loaded := Loaded(run.entries, digest);
    loaded.Some? && Applicable(engine, h.rows, h.schema, loaded.value, run.faults)
  }

  /** One invocation as a state transformer: all or nothing. */
  ghost function AfterRun<S>(engine: Engine<S>, digest: Text -> Digest, h: History<S>, run: Run): History<S> {
    if Succeeds(engine, digest, h, run) then
      var ms := Loaded(run.entries, digest).value;
      var pending := Scripts(ms[|h.rows|..]);
      History(RowsOf(ms), Execute(engine, h.schema, pending).value, h.scripts + pending)
    else h
  }

  ghost function AfterRuns<S>(engine: Engine<S>, digest: Text -> Digest, schema: S, runs: seq<Run>): History<S> {
    if runs == [] then History([], schema, [])
    else AfterRun(engine, digest, AfterRuns(engine, digest, schema, runs[..|runs| - 1]), runs[|runs| - 1])
  }

  /** The recorded row that `error` names does not match the directory. */
  ghost predicate HistoryFault(rows: seq<Applied>, ms: seq<Migration>, error: MigrationError) {
    match error
    case MissingFile(v) => |ms| < v <= |rows|
    case Renamed(v) => 1 <= v <= |rows| && v <= |ms| && rows[v - 1].name != ms[v - 1].name
    case Modified(v) =>
      1 <= v <= |rows| && v <= |ms| && rows[v - 1].name == ms[v - 1].name && rows[v - 1].checksum != ms[v - 1].checksum
    case _ => false
  }

  /** What a failing run reports: the directory, the setup, the history, a script or the
      commit, in this order. */
  ghost predicate RunFault<S>(engine: Engine<S>, digest: Text -> Digest, rows: seq<Applied>, schema: S, run: Run, error: MigrationError) {
    var loaded := Loaded(run.entries, digest);
    if loaded.None? then LoadFault(run.entries, digest, error)
    else if run.faults.setup then error == SetupFailed
    else if !Extends(rows, loaded.value) then HistoryFault(rows, loaded.value, error)
    else if (exists i :: |rows| <= i < |loaded.value| && i in run.faults.statements)
            || Execute(engine, schema, Scripts(loaded.value[|rows|..])).None? then error == StatementFailed
    else error == CommitFailed
  }

  /** `scripts` are the directory's file contents in the order of their numbers 1, 2, .., n. */
  ghost predicate InVersionOrder(entries: seq<FileEntry>, scripts: seq<Text>) {
    && (forall j :: 0 <= j < |entries| ==> InItsPlace(entries[j], scripts))
    && (forall v :: 1 <= v <= |scripts| ==> HasNumber(entries, v))
  }

  ghost predicate InItsPlace(e: FileEntry, scripts: seq<Text>) {
    IsScript(e) ==> 1 <= Number(e) <= |scripts| && e.contents == Some(scripts[Number(e) - 1])
  }

  ghost predicate HasNumber(entries: seq<FileEntry>, v: int) {
    exists j :: 0 <= j < |entries| && IsScript(entries[j]) && Number(entries[j]) == v
  }

  /** `rows` record the directory's files: number, name and digest of the contents. */
  ghost predicate Records(entries: seq<FileEntry>, digest: Text -> Digest, rows: seq<Applied>) {
    && (forall j :: 0 <= j < |entries| ==> Recorded(entries[j], digest, rows))
    && (forall v :: 1 <= v <= |rows| ==> HasNumber(entries, v))
  }

  ghost predicate Recorded(e: FileEntry, digest: Text -> Digest, rows: seq<Applied>) {
    IsScript(e) ==>
      && e.contents.Some? && 1 <= Number(e) <= |rows|
      && rows[Number(e) - 1] == Applied(Number(e), e.name, digest(e.contents.value))
  }

  lemma EveryNumberIsThere(entries: seq<FileEntry>, digest: Text -> Digest, ms: seq<Migration>, v: int)
    requires ReadsFiles(entries, digest, ms) && 1 <= v <= |ms|
    ensures HasNumber(entries, v)
  {
    assert IsRead(entries, digest, ms[v - 1]);
    var j :| 0 <= j < |entries| && ReadFrom(entries[j], digest, ms[v - 1]);
    assert Number(entries[j]) == v;
  }

  lemma ScriptsInVersionOrder(entries: seq<FileEntry>, digest: Text -> Digest, ms: seq<Migration>)
    requires ReadsFiles(entries, digest, ms)
    ensures InVersionOrder(entries, Scripts(ms))
  {
    forall j | 0 <= j < |entries| ensures InItsPlace(entries[j], Scripts(ms)) {
      assert ReadInPlace(entries[j], digest, ms);
    }
    forall v | 1 <= v <= |Scripts(ms)| ensures HasNumber(entries, v) {
      EveryNumberIsThere(entries, digest, ms, v);
    }
  }

  lemma RowsRecordFiles(entries: seq<FileEntry>, digest: Text -> Digest, ms: seq<Migration>)
    requires ReadsFiles(entries, digest, ms)
    ensures Records(entries, digest, RowsOf(ms))
  {
    forall j | 0 <= j < |entries| ensures Recorded(entries[j], digest, RowsOf(ms)) {
      assert ReadInPlace(entries[j], digest, ms);
    }
    forall v | 1 <= v <= |RowsOf(ms)| ensures HasNumber(entries, v) {
      EveryNumberIsThere(entries, digest, ms, v);
    }
  }

  /** What a successful run does, in terms of the directory's files alone: the history is
      extended to record exactly them, and the contents of the new ones are executed in the
      order of their numbers. */
  lemma RunExecutesFiles<S>(engine: Engine<S>, digest: Text -> Digest, h: History<S>, run: Run)
    requires Succeeds(engine, digest, h, run)
    ensures var h' := AfterRun(engine, digest, h, run);
      && h.rows <= h'.rows && Records(run.entries, digest, h'.rows)
      && exists scripts :: Executes(engine, run.entries, h.schema, |h.rows|, scripts, h'.schema) && |scripts| == |h'.rows|
  {
    var ms := Loaded(run.entries, digest).value;
    LoadedFiles(run.entries, digest, ms);
    ScriptsInVersionOrder(run.entries, digest, ms);
    RowsRecordFiles(run.entries, digest, ms);
    var scripts := Scripts(ms);
    ExtendedRows(h.rows, ms);
    var h' := AfterRun(engine, digest, h, run);
    assert h'.rows == RowsOf(ms) && Execute(engine, h.schema, Scripts(ms[|h.rows|..])) == Some(h'.schema);
    assert Executes(engine, run.entries, h.schema, |h.rows|, scripts, h'.schema);
  }

  lemma ExtendedRows(rows: seq<Applied>, ms: seq<Migration>)
    requires Extends(rows, ms)
    ensures rows <= RowsOf(ms) && Scripts(ms[|rows|..]) == Scripts(ms)[|rows|..]
  {
  }

  /** Executing the directory's scripts from the given position on makes `schema'` of `schema`. */
  ghost predicate Executes<S>(engine: Engine<S>, entries: seq<FileEntry>, schema: S, from: nat, scripts: seq<Text>, schema': S) {
    InVersionOrder(entries, scripts) && from <= |scripts| && Execute(engine, schema, scripts[from..]) == Some(schema')
  }

  class Database<S> {
    const engine: Engine<S>
    var rows: seq<Applied>
    var schema: S

    predicate Valid() reads this {
      InSequence(rows)
    }

    constructor (engine: Engine<S>, schema: S)
      ensures Valid() && this.engine == engine && this.rows == [] && this.schema == schema
    {
      this.engine := engine;
      this.rows := [];
      this.schema := schema;
    }

    /** The run is `AfterRun` of the old database: success exactly when the directory loads,
        extends the history, and all new scripts execute; otherwise nothing changes. The
        verdict mentions no visiting order. */
    method Up(entries: seq<FileEntry>, digest: Text -> Digest, faults: Faults) returns (error: Option<MigrationError>)
      requires Valid()
      modifies this
      ensures Valid()
      ensures var before, run := History(old(rows), old(schema), []), Run(entries, faults);
        && (error.None? <==> Succeeds(engine, digest, before, run))
        && rows == AfterRun(engine, digest, before, run).rows
        && schema == AfterRun(engine, digest, before, run).schema
      ensures error.Some? ==> rows == old(rows) && schema == old(schema)
      ensures error.None? ==> old(rows) <= rows && Records(entries, digest, rows)
      ensures error.None? ==> exists scripts ::
        Executes(engine, entries, old(schema), |old(rows)|, scripts, schema) && |scripts| == |rows|
      ensures error.Some? ==> RunFault(engine, digest, rows, schema, Run(entries, faults), error.value)
    {
      var loaded := Load(entries, digest);
      if loaded.Err? {
        NothingLoads(entries, digest);
        return Some(loaded.error);
      }
      var migrations := loaded.value;
      OnlyOneLoads(entries, digest, migrations);
      if faults.setup {
        return Some(SetupFailed);
      }
      error := CheckHistory(rows, migrations);
      if error.Some? {
        return;
      }
      var applied := ApplyNew(engine, rows, schema, migrations, faults.statements);
      if applied.None? {
        return Some(StatementFailed);
      }
      if faults.commit {
        return Some(CommitFailed);
      }
      RunExecutesFiles(engine, digest, History(rows, schema, []), Run(entries, faults));
      schema := applied.value.0;
      rows := applied.value.1;
      LoadedInSequence(migrations);
      return None;
    }
  }

  lemma LoadedInSequence(ms: seq<Migration>)
    requires Versions(ms) == Contiguous(|ms|)
    ensures InSequence(RowsOf(ms))
    ensures forall i :: 0 <= i < |ms| ==> ms[i].version == i + 1
  {
    forall i | 0 <= i < |ms| ensures ms[i].version == i + 1 {
      assert Versions(ms)[i] == Contiguous(|ms|)[i];
    }
  }

  lemma NothingLoads(entries: seq<FileEntry>, digest: Text -> Digest)
    requires !Loadable(entries, digest)
    ensures Loaded(entries, digest) == None
  {
    forall ms | LoadsTo(entries, digest, ms) ensures false {
      LoadableMeaning(entries, digest, ms);
    }
  }

  lemma OnlyOneLoads(entries: seq<FileEntry>, digest: Text -> Digest, ms: seq<Migration>)
    requires LoadsTo(entries, digest, ms)
    ensures Loaded(entries, digest) == Some(ms)
  {
    LoadIsUnique(Loaded(entries, digest).value, ms);
  }

  /** Reads the recorded rows into a map, indexes the directory, and compares every recorded
      version, in whatever order the map yields them. */
  method CheckHistory(rows: seq<Applied>, migrations: seq<Migration>) returns (error: Option<MigrationError>)
    requires InSequence(rows) && Versions(migrations) == Contiguous(|migrations|)
    ensures error.None? <==> Extends(rows, migrations)
    ensures error.Some? ==> HistoryFault(rows, migrations, error.value)
  {
    LoadedInSequence(migrations);
    var applied: map<int, Applied> := map[];
    for i := 0 to |rows|
      invariant forall v :: v in applied <==> 1 <= v <= i
      invariant forall v :: v in applied ==> applied[v] == rows[v - 1]
    {
      applied := applied[rows[i].version := rows[i]];
    }
    var known: map<int, Migration> := map[];
    for i := 0 to |migrations|
      invariant forall v :: v in known <==> 1 <= v <= i
      invariant forall v :: v in known ==> known[v] == migrations[v - 1]
    {
      known := known[migrations[i].version := migrations[i]];
    }
    var unvisited := applied.Keys;
    while unvisited != {}
      invariant unvisited <= applied.Keys
      invariant forall v :: v in applied && v !in unvisited ==> v <= |migrations| && rows[v - 1] == RowOf(migrations[v - 1])
      decreases |unvisited|
    {
      var version := Pick(unvisited);
      if version !in known {
        return Some(MissingFile(version));
      }
      if applied[version].name != known[version].name {
        return Some(Renamed(version));
      }
      if applied[version].checksum != known[version].checksum {
        return Some(Modified(version));
      }
      unvisited := unvisited - {version};
    }
    forall i | 0 <= i < |rows| ensures i < |migrations| && rows[i] == RowOf(migrations[i]) {
      assert i + 1 in applied;
    }
    return None;
  }

  /** The apply loop: skip recorded versions, execute the others, on working copies. */
  method ApplyNew<S>(engine: Engine<S>, rows: seq<Applied>, schema: S, migrations: seq<Migration>, statements: set<int>)
    returns (result: Option<(S, seq<Applied>)>)
    requires Extends(rows, migrations) && InSequence(rows) && Versions(migrations) == Contiguous(|migrations|)
    ensures result.Some? <==>
      && (forall i :: |rows| <= i < |migrations| ==> i !in statements)
      && Execute(engine, schema, Scripts(migrations[|rows|..])).Some?
    ensures result.Some? ==>
      Execute(engine, schema, Scripts(migrations[|rows|..])) == Some(result.value.0) && result.value.1 == RowsOf(migrations)
  {
    LoadedInSequence(migrations);
    var pending := Scripts(migrations[|rows|..]);
    var current, history := schema, rows;
    for i := 0 to |migrations|
      invariant i <= |rows| ==> current == schema && history == rows
      invariant i >= |rows| ==> history == RowsOf(migrations[..i])
      invariant i >= |rows| ==> Execute(engine, schema, pending[..i - |rows|]) == Some(current)
      invariant forall k :: |rows| <= k < i ==> k !in statements
    {
      var recorded := exists k :: 0 <= k < |rows| && rows[k].version == migrations[i].version;
      assert recorded <==> i < |rows| by {
        if i < |rows| { assert rows[i].version == migrations[i].version; }
      }
      if recorded {
        continue;
      }
      if i in statements {
        return None;
      }
      var n := i - |rows|;
      assert pending[..n + 1][..n] == pending[..n] && pending[..n + 1][n] == migrations[i].sql;
      var next := engine(current, migrations[i].sql);
      if next.None? {
        if Execute(engine, schema, pending).Some? { ExecutePrefix(engine, schema, pending, n + 1); }
        return None;
      }
      current := next.value;
      history := history + [RowOf(migrations[i])];
    }
    assert pending[..|pending|] == pending && migrations[..|migrations|] == migrations;
    return Some((current, history));
  }

  ghost predicate Faithful<S>(engine: Engine<S>, digest: Text -> Digest, schema: S, h: History<S>) {
    && InSequence(h.rows)
    && |h.scripts| == |h.rows|
    && (forall i :: 0 <= i < |h.rows| ==> h.rows[i].checksum == digest(h.scripts[i]))
    && Execute(engine, schema, h.scripts) == Some(h.schema)
  }

  lemma {:induction false} CollectedChecksums(entries: seq<FileEntry>, digest: Text -> Digest)
    requires GoodFiles(entries)
    ensures forall m :: m in Collected(entries, digest) ==> m.checksum == digest(m.sql)
  {
    if entries != [] {
      CollectedChecksums(entries[..|entries| - 1], digest);
    }
  }

  lemma LoadedChecksums(entries: seq<FileEntry>, digest: Text -> Digest, ms: seq<Migration>)
    requires LoadsTo(entries, digest, ms)
    ensures forall i :: 0 <= i < |ms| ==> ms[i].checksum == digest(ms[i].sql)
  {
    CollectedChecksums(entries, digest);
    forall i | 0 <= i < |ms| ensures ms[i] in Collected(entries, digest) {
      assert ms[i] in multiset(ms);
    }
  }

  lemma RunIsFaithful<S>(engine: Engine<S>, digest: Text -> Digest, schema: S, h: History<S>, run: Run)
    requires Faithful(engine, digest, schema, h)
    ensures Faithful(engine, digest, schema, AfterRun(engine, digest, h, run))
  {
    if Succeeds(engine, digest, h, run) {
      var ms := Loaded(run.entries, digest).value;
      var pending := Scripts(ms[|h.rows|..]);
      LoadedInSequence(ms);
      LoadedChecksums(run.entries, digest, ms);
      ExecuteAppend(engine, schema, h.scripts, pending);
      forall i | 0 <= i < |ms| ensures RowOf(ms[i]).checksum == digest((h.scripts + pending)[i]) {
        if i < |h.rows| {
          assert h.rows[i] == RowOf(ms[i]);
        } else {
          assert (h.scripts + pending)[i] == ms[i].sql;
        }
      }
    }
  }

  /** History over any sequence of runs, any directories and any faults: the rows are versions
      1..n, and the schema is those n scripts executed once each in order on the first schema. */
  lemma {:induction false} HistoryIsFaithful<S>(engine: Engine<S>, digest: Text -> Digest, schema: S, runs: seq<Run>)
    ensures Faithful(engine, digest, schema, AfterRuns(engine, digest, schema, runs))
  {
    if runs != [] {
      HistoryIsFaithful(engine, digest, schema, runs[..|runs| - 1]);
      RunIsFaithful(engine, digest, schema, AfterRuns(engine, digest, schema, runs[..|runs| - 1]), runs[|runs| - 1]);
    }
  }

  ghost predicate Injective(digest: Text -> Digest) {
    forall a, b :: digest(a) == digest(b) ==> a == b
  }

  /** With collision-free checksums, the scripts executed so far are those of the directory that
      the last successful run loaded. */
  lemma {:induction false} ScriptsAreLoaded<S>(engine: Engine<S>, digest: Text -> Digest, schema: S, h: History<S>, entries: seq<FileEntry>, ms: seq<Migration>)
    requires Injective(digest) && Faithful(engine, digest, schema, h)
    requires LoadsTo(entries, digest, ms) && h.rows == RowsOf(ms)
    ensures h.scripts == Scripts(ms)
  {
    LoadedChecksums(entries, digest, ms);
    forall i | 0 <= i < |ms| ensures h.scripts[i] == ms[i].sql {
      assert h.rows[i] == RowOf(ms[i]) && digest(h.scripts[i]) == digest(ms[i].sql);
    }
  }

  /** With collision-free checksums, after a successful run the schema is exactly the directory's
      own file contents executed once each in the order of their numbers, whatever happened
      before, and the rows record exactly those files. */
  lemma {:induction false} SchemaIsDirectory<S>(engine: Engine<S>, digest: Text -> Digest, schema: S, runs: seq<Run>)
    requires Injective(digest) && runs != []
    requires Succeeds(engine, digest, AfterRuns(engine, digest, schema, runs[..|runs| - 1]), runs[|runs| - 1])
    ensures var h, entries := AfterRuns(engine, digest, schema, runs), runs[|runs| - 1].entries;
      && Records(entries, digest, h.rows) && |h.scripts| == |h.rows|
      && InVersionOrder(entries, h.scripts) && Execute(engine, schema, h.scripts) == Some(h.schema)
  {
    HistoryIsFaithful(engine, digest, schema, runs);
    var h, entries := AfterRuns(engine, digest, schema, runs), runs[|runs| - 1].entries;
    var ms := Loaded(entries, digest).value;
    ScriptsAreLoaded(engine, digest, schema, h, entries, ms);
    LoadedFiles(entries, digest, ms);
    ScriptsInVersionOrder(entries, digest, ms);
    RowsRecordFiles(entries, digest, ms);
  }

  /** Append-only: no run ever changes or removes a recorded row. */
  lemma {:induction false} HistoryOnlyGrows<S>(engine: Engine<S>, digest: Text -> Digest, schema: S, runs: seq<Run>, n: nat)
    requires n <= |runs|
    ensures AfterRuns(engine, digest, schema, runs[..n]).rows <= AfterRuns(engine, digest, schema, runs).rows
    ensures AfterRuns(engine, digest, schema, runs[..n]).scripts <= AfterRuns(engine, digest, schema, runs).scripts
  {
    if n == |runs| {
      assert runs[..n] == runs;
    } else {
      HistoryOnlyGrows(engine, digest, schema, runs[..|runs| - 1], n);
      assert runs[..|runs| - 1][..n] == runs[..n];
    }
  }
}
