/** The migration loader and the migration runner. */
module Migrations {
  import opened Base
  import opened Permutations
  import opened Texts
  import opened Regexes
  import opened Scanners
  import opened Decimals

  type Digest = seq<byte>

  /** A directory entry; `contents` is `None` when the file cannot be read. */
  datatype FileEntry = FileEntry(name: Text, isDir: bool, contents: Option<Text>)

  datatype Migration = Migration(version: int, name: Text, sql: Text, checksum: Digest)

  datatype MigrationError =
    | BadFilename(name: Text)
    | Unreadable(name: Text)
    | EmptyFile(name: Text)
    | NoMigrations
    | WrongVersion(expected: int, found: int)
    | MissingFile(version: int)
    | Renamed(version: int)
    | Modified(version: int)
    | SetupFailed
    | StatementFailed
    | CommitFailed

  const SQL_SUFFIX := Str(".sql")

  predicate HasSuffix(t: Text, suffix: Text) {
    |suffix| <= |t| && t[|t| - |suffix|..] == suffix
  }

  predicate IsNameChar(g: Glyph) {
    IsAlnum(g) || g == Rune('_')
  }

  /** `[a-z0-9_]*\.sql`, then with the first name character, then with the underscore. */
  predicate NameTail(t: Text) {
    HasSuffix(t, SQL_SUFFIX) && forall i :: 0 <= i < |t| - 4 ==> IsNameChar(t[i])
  }

  predicate NamePart(t: Text) {
    t != [] && IsAlnum(t[0]) && NameTail(t[1..])
  }

  predicate AfterNumber(t: Text) {
    t != [] && t[0] == Rune('_') && NamePart(t[1..])
  }

  /** A matcher for migration filenames: six digits, an underscore, a name, the suffix. */
  predicate ValidFilename(name: Text) {
    |name| >= 6 && (forall i :: 0 <= i < 6 ==> IsDigit(name[i])) && AfterNumber(name[6..])
  }

  const DIGIT := [('0', '9')]
  const UNDERSCORE := [('_', '_')]
  const NAME_CHAR := [('a', 'z'), ('0', '9'), ('_', '_')]

  /** `\.sql` and `^([0-9]{6})_([a-z0-9][a-z0-9_]*)\.sql$` */
  const SUFFIX_PATTERN :=
    Cat(Class([('.', '.')]), Cat(Class([('s', 's')]), Cat(Class([('q', 'q')]), Class([('l', 'l')]))))
  const FILENAME_PATTERN :=
    Cat(Repeat(Class(DIGIT), 6, 6),
        Cat(Class(UNDERSCORE), Cat(Class(LETTER_OR_DIGIT), Cat(Star(Class(NAME_CHAR)), SUFFIX_PATTERN))))

  lemma OneChar(c: char, g: Glyph)
    ensures InClass([(c, c)], g) <==> g == Rune(c)
  {
    assert [(c, c)][0] == (c, c);
  }

  lemma {:induction false} SuffixMeaning(t: Text)
    ensures Matches(SUFFIX_PATTERN, t) <==> t == SQL_SUFFIX
  {
    ClassThen([('.', '.')], Cat(Class([('s', 's')]), Cat(Class([('q', 'q')]), Class([('l', 'l')]))), t);
    if |t| > 0 {
      OneChar('.', t[0]);
      ClassThen([('s', 's')], Cat(Class([('q', 'q')]), Class([('l', 'l')])), t[1..]);
    }
    if |t| > 1 {
      OneChar('s', t[1]);
      ClassThen([('q', 'q')], Class([('l', 'l')]), t[1..][1..]);
    }
    if |t| > 2 { OneChar('q', t[2]); }
    if |t| > 3 { OneChar('l', t[3]); }
    assert SQL_SUFFIX == [Rune('.'), Rune('s'), Rune('q'), Rune('l')];
    assert |t| == 4 ==> t == [t[0], t[1], t[2], t[3]];
  }

  lemma NameCharMeaning(g: Glyph)
    ensures InClass(NAME_CHAR, g) <==> IsNameChar(g)
  {
    assert NAME_CHAR[0] == ('a', 'z') && NAME_CHAR[1] == ('0', '9') && NAME_CHAR[2] == ('_', '_');
  }

  lemma {:induction false} NameChars(t: Text)
    ensures Matches(Star(Class(NAME_CHAR)), t) <==> forall i :: 0 <= i < |t| ==> IsNameChar(t[i])
  {
    StarOfClass(NAME_CHAR, t);
    forall i | 0 <= i < |t| { NameCharMeaning(t[i]); }
  }

  lemma {:induction false} NameTailMeaning(t: Text)
    ensures Matches(Cat(Star(Class(NAME_CHAR)), SUFFIX_PATTERN), t) <==> NameTail(t)
  {
    if NameTail(t) {
      NameChars(t[..|t| - 4]);
      SuffixMeaning(t[|t| - 4..]);
      assert Matches(Star(Class(NAME_CHAR)), t[..|t| - 4]) && Matches(SUFFIX_PATTERN, t[|t| - 4..]);
    }
    if Matches(Cat(Star(Class(NAME_CHAR)), SUFFIX_PATTERN), t) {
      var i :| 0 <= i <= |t| && Matches(Star(Class(NAME_CHAR)), t[..i]) && Matches(SUFFIX_PATTERN, t[i..]);
      NameChars(t[..i]);
      SuffixMeaning(t[i..]);
      assert |t[i..]| == 4;
      assert forall k :: 0 <= k < |t| - 4 ==> t[..i][k] == t[k];
    }
  }

  lemma {:induction false} SixDigitsThen(r: Regex, t: Text)
    ensures Matches(Cat(Repeat(Class(DIGIT), 6, 6), r), t) <==>
            |t| >= 6 && (forall i :: 0 <= i < 6 ==> IsDigit(t[i])) && Matches(r, t[6..])
  {
    var digits := Repeat(Class(DIGIT), 6, 6);
    assert DIGIT[0] == ('0', '9');
    forall i | 0 <= i <= |t|
      ensures Matches(digits, t[..i]) <==> i == 6 && forall k :: 0 <= k < 6 ==> IsDigit(t[k])
    {
      CopiesOfClass(DIGIT, 6, t[..i]);
      assert Matches(digits, t[..i]) <==> Copies(Class(DIGIT), 6, t[..i]);
      assert forall k :: 0 <= k < i ==> t[..i][k] == t[k];
    }
    if |t| >= 6 && Matches(digits, t[..6]) && Matches(r, t[6..]) {
      assert Matches(Cat(digits, r), t);
    }
  }

  lemma {:induction false} NamePartMeaning(t: Text)
    ensures Matches(Cat(Class(LETTER_OR_DIGIT), Cat(Star(Class(NAME_CHAR)), SUFFIX_PATTERN)), t) <==> NamePart(t)
  {
    ClassThen(LETTER_OR_DIGIT, Cat(Star(Class(NAME_CHAR)), SUFFIX_PATTERN), t);
    if t != [] {
      ClassMeanings(t[0]);
      NameTailMeaning(t[1..]);
    }
  }

  /** The matcher accepts exactly the pattern that the loader compiles. */
  lemma {:induction false} FilenameMeaning(name: Text)
    ensures ValidFilename(name) <==> Matches(FILENAME_PATTERN, name)
  {
    var part := Cat(Class(LETTER_OR_DIGIT), Cat(Star(Class(NAME_CHAR)), SUFFIX_PATTERN));
    SixDigitsThen(Cat(Class(UNDERSCORE), part), name);
    if |name| >= 6 {
      var rest := name[6..];
      ClassThen(UNDERSCORE, part, rest);
      if rest != [] {
        OneChar('_', rest[0]);
        NamePartMeaning(rest[1..]);
      }
    }
  }

  predicate Skipped(e: FileEntry) {
    e.isDir || !HasSuffix(e.name, SQL_SUFFIX)
  }

  predicate GoodFile(e: FileEntry) {
    ValidFilename(e.name) && e.contents.Some? && TrimSpace(e.contents.value) != []
  }

  function MigrationOf(e: FileEntry, digest: Text -> Digest): Migration
    requires GoodFile(e)
  {
    Migration(DecimalValue(e.name[..6]), e.name, e.contents.value, digest(e.contents.value))
  }

  predicate GoodFiles(entries: seq<FileEntry>) {
    forall i :: 0 <= i < |entries| ==> Skipped(entries[i]) || GoodFile(entries[i])
  }

  /** The migrations of a directory listing, in the listing's order. */
  function Collected(entries: seq<FileEntry>, digest: Text -> Digest): seq<Migration>
    requires GoodFiles(entries)
  {
    if entries == [] then []
    else
      var last := entries[|entries| - 1];
      Collected(entries[..|entries| - 1], digest) + (if Skipped(last) then [] else [MigrationOf(last, digest)])
  }

  function Versions(ms: seq<Migration>): seq<int> {
    seq(|ms|, i requires 0 <= i < |ms| => ms[i].version)
  }

  /** 1, 2, .., n */
  function Contiguous(n: nat): seq<int> {
    seq(n, i => i + 1)
  }

  predicate Ascending(s: seq<int>) {
    forall i, j :: 0 <= i < j < |s| ==> s[i] <= s[j]
  }

  lemma LastsAgree(a: seq<int>, b: seq<int>)
    requires Ascending(a) && Ascending(b) && multiset(a) == multiset(b) && a != [] && b != []
    ensures a[|a| - 1] == b[|b| - 1]
    ensures multiset(a[..|a| - 1]) == multiset(b[..|b| - 1])
  {
    LastIsGreatest(a, b[|b| - 1]);
    LastIsGreatest(b, a[|a| - 1]);
    LastOut(a);
    LastOut(b);
    assert multiset(a[..|a| - 1]) == multiset(a) - multiset{a[|a| - 1]};
    assert multiset(b[..|b| - 1]) == multiset(b) - multiset{b[|b| - 1]};
  }

  /** Sorting is determined by the multiset. */
  lemma {:induction false} SortedIsUnique(a: seq<int>, b: seq<int>)
    requires Ascending(a) && Ascending(b) && multiset(a) == multiset(b)
    ensures a == b
  {
    assert |a| == |multiset(a)| == |multiset(b)| == |b|;
    if a != [] {
      var n := |a| - 1;
      LastsAgree(a, b);
      SortedIsUnique(a[..n], b[..n]);
      assert a == a[..n] + [a[n]] && b == b[..n] + [b[n]];
    }
  }

  lemma LastIsGreatest(a: seq<int>, x: int)
    requires Ascending(a) && a != []
    ensures x in multiset(a) ==> x <= a[|a| - 1]
    ensures a[|a| - 1] in multiset(a)
  {
  }

  /** The versions are exactly 1..n in some order, each once. */
  ghost predicate IsPermutationOfContiguous(ms: seq<Migration>) {
    ms != [] && multiset(Versions(ms)) == multiset(Contiguous(|ms|))
  }

  /** What `Load` accepts. */
  ghost predicate Loadable(entries: seq<FileEntry>, digest: Text -> Digest) {
    GoodFiles(entries) && IsPermutationOfContiguous(Collected(entries, digest))
  }

  /** `ms` is the ascending arrangement of the directory's migrations. */
  ghost predicate LoadsTo(entries: seq<FileEntry>, digest: Text -> Digest, ms: seq<Migration>) {
    && GoodFiles(entries)
    && multiset(ms) == multiset(Collected(entries, digest))
    && ms != [] && Versions(ms) == Contiguous(|ms|)
  }

  /** Entry `i` is the first bad file, and `error` its first failing check. */
  ghost predicate FirstBadFile(entries: seq<FileEntry>, i: nat, error: MigrationError) {
    && i < |entries| && GoodFiles(entries[..i]) && !Skipped(entries[i])
    && var e := entries[i];
       match error
       case BadFilename(name) => name == e.name && !ValidFilename(e.name)
       case Unreadable(name) => name == e.name && ValidFilename(e.name) && e.contents.None?
       case EmptyFile(name) =>
         name == e.name && ValidFilename(e.name) && e.contents.Some? && TrimSpace(e.contents.value) == []
       case _ => false
  }

  /** Good files whose versions start 1..expected-1 and have `found` next in ascending order. */
  ghost predicate SequenceBreaks(entries: seq<FileEntry>, digest: Text -> Digest, expected: int, found: int) {
    GoodFiles(entries) &&
    exists sorted :: BreaksAt(sorted, Collected(entries, digest), expected, found)
  }

  ghost predicate BreaksAt(sorted: seq<Migration>, ms: seq<Migration>, expected: int, found: int) {
    && Sorted(sorted) && multiset(sorted) == multiset(ms)
    && 1 <= expected <= |sorted| && found != expected && sorted[expected - 1].version == found
    && forall k :: 0 <= k < expected - 1 ==> sorted[k].version == k + 1
  }

  /** What a failing `Load` reports. */
  ghost predicate LoadFault(entries: seq<FileEntry>, digest: Text -> Digest, error: MigrationError) {
    match error
    case NoMigrations => forall i :: 0 <= i < |entries| ==> Skipped(entries[i])
    case WrongVersion(expected, found) => SequenceBreaks(entries, digest, expected, found)
    case _ => exists i: nat :: FirstBadFile(entries, i, error)
  }

  lemma {:induction false} NothingCollected(entries: seq<FileEntry>, digest: Text -> Digest)
    requires GoodFiles(entries) && Collected(entries, digest) == []
    ensures forall i :: 0 <= i < |entries| ==> Skipped(entries[i])
  {
    if entries != [] {
      NothingCollected(entries[..|entries| - 1], digest);
    }
  }

  /** The entries that count as migration files, and the number that a file's name starts with. */
  predicate IsScript(e: FileEntry) {
    !e.isDir && HasSuffix(e.name, Str(".sql"))
  }

  function Number(e: FileEntry): int {
    if |e.name| >= 6 then DecimalValue(e.name[..6]) else 0
  }

  /** `m` is what the loader must make of the file `e`: its number, its name, its contents, and
      the digest of those contents. */
  ghost predicate ReadFrom(e: FileEntry, digest: Text -> Digest, m: Migration) {
    IsScript(e) && e.contents.Some? && m == Migration(Number(e), e.name, e.contents.value, digest(e.contents.value))
  }

  ghost predicate IsRead(entries: seq<FileEntry>, digest: Text -> Digest, m: Migration) {
    exists j :: 0 <= j < |entries| && ReadFrom(entries[j], digest, m)
  }

  /** Every migration is read from some file, and every file is read as the migration in the
      place of its number, which no other file has. */
  ghost predicate ReadsFiles(entries: seq<FileEntry>, digest: Text -> Digest, ms: seq<Migration>) {
    && (forall i :: 0 <= i < |ms| ==> ms[i].version == i + 1 && IsRead(entries, digest, ms[i]))
    && (forall j :: 0 <= j < |entries| ==> ReadInPlace(entries[j], digest, ms))
    && (forall i, j :: 0 <= i < j < |entries| ==> !SameNumber(entries[i], entries[j]))
  }

  ghost predicate ReadInPlace(e: FileEntry, digest: Text -> Digest, ms: seq<Migration>) {
    IsScript(e) ==> 1 <= Number(e) <= |ms| && ReadFrom(e, digest, ms[Number(e) - 1])
  }

  predicate SameNumber(e: FileEntry, f: FileEntry) {
    IsScript(e) && IsScript(f) && Number(e) == Number(f)
  }

  lemma OneFileOneMigration(e: FileEntry, digest: Text -> Digest, m: Migration)
    requires GoodFile(e)
    ensures ReadFrom(e, digest, m) <==> !Skipped(e) && m == MigrationOf(e, digest)
  {
  }

  lemma {:induction false} FileIsCollected(entries: seq<FileEntry>, digest: Text -> Digest, j: nat)
    requires GoodFiles(entries) && j < |entries| && !Skipped(entries[j])
    ensures MigrationOf(entries[j], digest) in Collected(entries, digest)
  {
    if j < |entries| - 1 {
      FileIsCollected(entries[..|entries| - 1], digest, j);
    }
  }

  lemma {:induction false} CollectedIsRead(entries: seq<FileEntry>, digest: Text -> Digest, m: Migration)
    requires GoodFiles(entries) && m in Collected(entries, digest)
    ensures IsRead(entries, digest, m)
  {
    var n := |entries| - 1;
    if m in Collected(entries[..n], digest) {
      CollectedIsRead(entries[..n], digest, m);
      var j :| 0 <= j < |entries[..n]| && ReadFrom(entries[..n][j], digest, m);
      assert ReadFrom(entries[j], digest, m);
    } else {
      assert ReadFrom(entries[n], digest, m);
    }
  }

  /** The collected migrations are exactly those read from the files. */
  lemma {:induction false} CollectedMembers(entries: seq<FileEntry>, digest: Text -> Digest)
    requires GoodFiles(entries)
    ensures forall m :: m in Collected(entries, digest) <==> IsRead(entries, digest, m)
  {
    forall m ensures m in Collected(entries, digest) <==> IsRead(entries, digest, m) {
      if m in Collected(entries, digest) {
        CollectedIsRead(entries, digest, m);
      } else if IsRead(entries, digest, m) {
        var j :| 0 <= j < |entries| && ReadFrom(entries[j], digest, m);
        OneFileOneMigration(entries[j], digest, m);
        FileIsCollected(entries, digest, j);
      }
    }
  }

  predicate HasVersion(e: FileEntry, v: int) {
    IsScript(e) && Number(e) == v
  }

  /** How many files have the number `v`. */
  function FilesWith(entries: seq<FileEntry>, v: int): nat {
    if entries == [] then 0
    else FilesWith(entries[..|entries| - 1], v) + if HasVersion(entries[|entries| - 1], v) then 1 else 0
  }

  lemma {:induction false} OneFile(entries: seq<FileEntry>, i: nat, v: int)
    requires i < |entries| && HasVersion(entries[i], v)
    ensures FilesWith(entries, v) >= 1
  {
    if i < |entries| - 1 { OneFile(entries[..|entries| - 1], i, v); }
  }

  lemma {:induction false} TwoFiles(entries: seq<FileEntry>, i: nat, j: nat, v: int)
    requires i < j < |entries| && HasVersion(entries[i], v) && HasVersion(entries[j], v)
    ensures FilesWith(entries, v) >= 2
  {
    var before := entries[..|entries| - 1];
    if j < |entries| - 1 {
      TwoFiles(before, i, j, v);
    } else {
      OneFile(before, i, v);
    }
  }

  lemma {:induction false} VersionsCountFiles(entries: seq<FileEntry>, digest: Text -> Digest, v: int)
    requires GoodFiles(entries)
    ensures multiset(Versions(Collected(entries, digest)))[v] == FilesWith(entries, v)
  {
    if entries != [] {
      var n := |entries| - 1;
      VersionsCountFiles(entries[..n], digest, v);
      LastVersion(Collected(entries[..n], digest), entries[n], digest, v);
    }
  }

  lemma LastVersion(ms: seq<Migration>, e: FileEntry, digest: Text -> Digest, v: int)
    requires Skipped(e) || GoodFile(e)
    ensures multiset(Versions(ms + (if Skipped(e) then [] else [MigrationOf(e, digest)])))[v]
         == multiset(Versions(ms))[v] + if HasVersion(e, v) then 1 else 0
  {
    if Skipped(e) {
      assert ms + [] == ms;
    } else {
      var m := MigrationOf(e, digest);
      assert Versions(ms + [m]) == Versions(ms) + [m.version];
    }
  }

  lemma {:induction false} ContiguousOnce(n: nat, v: int)
    ensures multiset(Contiguous(n))[v] == if 1 <= v <= n then 1 else 0
  {
    if n > 0 {
      ContiguousOnce(n - 1, v);
      assert Contiguous(n) == Contiguous(n - 1) + [n];
    } else {
      assert Contiguous(0) == [];
    }
  }

  /** What loading to `ms` means for the files themselves. */
  lemma {:induction false} LoadedFiles(entries: seq<FileEntry>, digest: Text -> Digest, ms: seq<Migration>)
    requires LoadsTo(entries, digest, ms)
    ensures ReadsFiles(entries, digest, ms)
  {
    var collected := Collected(entries, digest);
    CollectedMembers(entries, digest);
    VersionsOfPermutation(ms, collected);
    forall i | 0 <= i < |ms| ensures ms[i].version == i + 1 && IsRead(entries, digest, ms[i]) {
      assert Versions(ms)[i] == Contiguous(|ms|)[i];
      assert ms[i] in multiset(ms) && ms[i] in multiset(collected);
      assert ms[i] in collected;
    }
    forall j | 0 <= j < |entries| ensures ReadInPlace(entries[j], digest, ms) {
      if IsScript(entries[j]) { FileHasPlace(entries, digest, ms, j); }
    }
    forall i, j | 0 <= i < j < |entries| ensures !SameNumber(entries[i], entries[j]) {
      if SameNumber(entries[i], entries[j]) {
        TwoFiles(entries, i, j, Number(entries[i]));
        VersionsCountFiles(entries, digest, Number(entries[i]));
        ContiguousOnce(|ms|, Number(entries[i]));
      }
    }
  }

  lemma {:induction false} FileHasPlace(entries: seq<FileEntry>, digest: Text -> Digest, ms: seq<Migration>, j: nat)
    requires LoadsTo(entries, digest, ms) && j < |entries| && IsScript(entries[j])
    ensures ReadInPlace(entries[j], digest, ms)
  {
    FileIsCollected(entries, digest, j);
    var m := MigrationOf(entries[j], digest);
    OneFileOneMigration(entries[j], digest, m);
    assert m in multiset(Collected(entries, digest)) && m in multiset(ms) && m in ms;
    var k :| 0 <= k < |ms| && ms[k] == m;
    assert Versions(ms)[k] == Contiguous(|ms|)[k];
  }

  /** One more good file extends the collection; one bad file ends it. */
  lemma CollectOneMore(entries: seq<FileEntry>, digest: Text -> Digest, i: nat)
    requires i < |entries| && GoodFiles(entries[..i])
    ensures !Skipped(entries[i]) && !GoodFile(entries[i]) ==> !GoodFiles(entries)
    ensures Skipped(entries[i]) || GoodFile(entries[i]) ==>
      && GoodFiles(entries[..i + 1])
      && Collected(entries[..i + 1], digest) ==
         Collected(entries[..i], digest) + (if Skipped(entries[i]) then [] else [MigrationOf(entries[i], digest)])
  {
    assert entries[..i + 1][..i] == entries[..i];
  }

  method CollectFiles(entries: seq<FileEntry>, digest: Text -> Digest) returns (result: Result<seq<Migration>, MigrationError>)
    ensures result.Ok? <==> GoodFiles(entries)
    ensures result.Ok? ==> result.value == Collected(entries, digest)
    ensures result.Ok? ==>
      forall m :: m in result.value <==> IsRead(entries, digest, m)
    ensures result.Err? ==> exists i: nat :: FirstBadFile(entries, i, result.error)
  {
    var migrations: seq<Migration> := [];
    for i := 0 to |entries|
      invariant GoodFiles(entries[..i]) && migrations == Collected(entries[..i], digest)
    {
      var entry := entries[i];
      CollectOneMore(entries, digest, i);
      if entry.isDir || !HasSuffix(entry.name, SQL_SUFFIX) {
        continue;
      }
      if !ValidFilename(entry.name) {
        assert FirstBadFile(entries, i, BadFilename(entry.name));
        return Err(BadFilename(entry.name));
      }
      if entry.contents.None? {
        assert FirstBadFile(entries, i, Unreadable(entry.name));
        return Err(Unreadable(entry.name));
      }
      if TrimSpace(entry.contents.value) == [] {
        assert FirstBadFile(entries, i, EmptyFile(entry.name));
        return Err(EmptyFile(entry.name));
      }
      migrations := migrations + [MigrationOf(entry, digest)];
    }
    assert entries[..|entries|] == entries;
    CollectedMembers(entries, digest);
    return Ok(migrations);
  }

  predicate Sorted(ms: seq<Migration>) {
    forall i, j :: 0 <= i < j < |ms| ==> ms[i].version <= ms[j].version
  }

  /** The library sort by version, as an insertion sort. */
  method SortByVersion(ms: seq<Migration>) returns (sorted: seq<Migration>)
    ensures Sorted(sorted) && multiset(sorted) == multiset(ms)
  {
    sorted := [];
    for i := 0 to |ms|
      invariant Sorted(sorted) && multiset(sorted) == multiset(ms[..i])
    {
      sorted := Insert(sorted, ms[i]);
      assert ms[..i + 1] == ms[..i] + [ms[i]];
    }
    assert ms[..|ms|] == ms;
  }

  method Insert(sorted: seq<Migration>, m: Migration) returns (result: seq<Migration>)
    requires Sorted(sorted)
    ensures Sorted(result) && multiset(result) == multiset(sorted) + multiset{m}
  {
    var position := |sorted|;
    while position > 0 && sorted[position - 1].version > m.version
      invariant 0 <= position <= |sorted|
      invariant forall k :: position <= k < |sorted| ==> m.version < sorted[k].version
    {
      position := position - 1;
    }
    InsertedIsSorted(sorted, m, position);
    result := sorted[..position] + [m] + sorted[position..];
  }

  lemma InsertedIsSorted(sorted: seq<Migration>, m: Migration, position: nat)
    requires Sorted(sorted) && position <= |sorted|
    requires position > 0 ==> sorted[position - 1].version <= m.version
    requires forall k :: position <= k < |sorted| ==> m.version < sorted[k].version
    ensures var result := sorted[..position] + [m] + sorted[position..];
      Sorted(result) && multiset(result) == multiset(sorted) + multiset{m}
  {
    var result := sorted[..position] + [m] + sorted[position..];
    InsertedAt(sorted, m, position);
    forall i, j | 0 <= i < j < |result| ensures result[i].version <= result[j].version {
      assert position > 0 && i < position ==> sorted[i].version <= sorted[position - 1].version;
    }
  }

  lemma InsertedAt(sorted: seq<Migration>, m: Migration, position: nat)
    requires position <= |sorted|
    ensures var result := sorted[..position] + [m] + sorted[position..];
      && (forall k :: 0 <= k < |result| ==> result[k] == if k < position then sorted[k] else if k == position then m else sorted[k - 1])
      && multiset(result) == multiset(sorted) + multiset{m}
  {
    var result := sorted[..position] + [m] + sorted[position..];
    OneOut(result, position);
    assert result[..position] + result[position + 1..] == sorted;
  }

  lemma {:induction false} VersionsOfPermutation(a: seq<Migration>, b: seq<Migration>)
    requires multiset(a) == multiset(b)
    ensures multiset(Versions(a)) == multiset(Versions(b))
  {
    if a == [] {
      assert |multiset(b)| == 0;
    } else {
      var n := |a| - 1;
      var k := MatchLast(a, b);
      var rest := b[..k] + b[k + 1..];
      assert a == a[..n] + [a[n]];
      assert b == b[..k] + [b[k]] + b[k + 1..];
      VersionsOfPermutation(a[..n], rest);
      assert Versions(a) == Versions(a[..n]) + [a[n].version];
      assert Versions(b) == Versions(b[..k]) + [b[k].version] + Versions(b[k + 1..]);
      assert Versions(rest) == Versions(b[..k]) + Versions(b[k + 1..]);
    }
  }

  lemma SortedVersions(ms: seq<Migration>, sorted: seq<Migration>)
    requires Sorted(sorted) && multiset(sorted) == multiset(ms)
    ensures IsPermutationOfContiguous(ms) <==> sorted != [] && Versions(sorted) == Contiguous(|sorted|)
  {
    VersionsOfPermutation(sorted, ms);
    assert |sorted| == |multiset(sorted)| == |multiset(ms)| == |ms|;
    if multiset(Versions(ms)) == multiset(Contiguous(|ms|)) {
      SortedIsUnique(Versions(sorted), Contiguous(|sorted|));
    }
  }

  lemma BadFileIsFault(entries: seq<FileEntry>, digest: Text -> Digest, error: MigrationError)
    requires !GoodFiles(entries) && exists i: nat :: FirstBadFile(entries, i, error)
    ensures !Loadable(entries, digest) && LoadFault(entries, digest, error)
  {
  }

  /** A scan that stops at `index` names the first break of the sequence. */
  lemma {:induction false} GapIsFault(entries: seq<FileEntry>, digest: Text -> Digest, sorted: seq<Migration>, index: nat)
    requires GoodFiles(entries) && Sorted(sorted) && multiset(sorted) == multiset(Collected(entries, digest))
    requires index < |sorted| && sorted[index].version != index + 1
    requires forall k :: 0 <= k < index ==> sorted[k].version == k + 1
    ensures !Loadable(entries, digest) && LoadFault(entries, digest, WrongVersion(index + 1, sorted[index].version))
  {
    var ms := Collected(entries, digest);
    SortedVersions(ms, sorted);
    assert Versions(sorted)[index] != Contiguous(|sorted|)[index];
    assert BreaksAt(sorted, ms, index + 1, sorted[index].version);
  }

  /** A scan that reaches the end has found the ascending arrangement. */
  lemma {:induction false} ScanSucceeds(entries: seq<FileEntry>, digest: Text -> Digest, sorted: seq<Migration>)
    requires GoodFiles(entries) && Sorted(sorted) && multiset(sorted) == multiset(Collected(entries, digest))
    requires sorted != [] && forall k :: 0 <= k < |sorted| ==> sorted[k].version == k + 1
    ensures Loadable(entries, digest) && LoadsTo(entries, digest, sorted) && ReadsFiles(entries, digest, sorted)
  {
    VersionsCountUp(sorted);
    SortedVersions(Collected(entries, digest), sorted);
    LoadedFiles(entries, digest, sorted);
  }

  lemma VersionsCountUp(ms: seq<Migration>)
    requires forall k :: 0 <= k < |ms| ==> ms[k].version == k + 1
    ensures Versions(ms) == Contiguous(|ms|)
  {
  }

  lemma {:induction false} EmptyIsFault(entries: seq<FileEntry>, digest: Text -> Digest)
    requires GoodFiles(entries) && multiset(Collected(entries, digest)) == multiset{}
    ensures !Loadable(entries, digest) && LoadFault(entries, digest, NoMigrations)
  {
    var ms := Collected(entries, digest);
    assert |multiset(ms)| == |ms|;
    NothingCollected(entries, digest);
  }

  /** Loader exactness: sort, then scan, succeeds iff all files are good and their versions
      are a permutation of 1..n with n >= 1. */
  method Load(entries: seq<FileEntry>, digest: Text -> Digest) returns (result: Result<seq<Migration>, MigrationError>)
    ensures result.Ok? <==> Loadable(entries, digest)
    ensures result.Ok? ==> LoadsTo(entries, digest, result.value) && ReadsFiles(entries, digest, result.value)
    ensures result.Err? ==> LoadFault(entries, digest, result.error)
  {
    var collected := CollectFiles(entries, digest);
    if collected.Err? {
      BadFileIsFault(entries, digest, collected.error);
      return Err(collected.error);
    }
    result := SortAndScan(entries, digest, collected.value);
  }

  /** The part of `Load` behind the collection: sort, then scan. */
  method SortAndScan(entries: seq<FileEntry>, digest: Text -> Digest, collected: seq<Migration>)
    returns (result: Result<seq<Migration>, MigrationError>)
    requires GoodFiles(entries) && collected == Collected(entries, digest)
    ensures result.Ok? <==> Loadable(entries, digest)
    ensures result.Ok? ==> LoadsTo(entries, digest, result.value) && ReadsFiles(entries, digest, result.value)
    ensures result.Err? ==> LoadFault(entries, digest, result.error)
  {
    var migrations := SortByVersion(collected);
    if |migrations| == 0 {
      EmptyIsFault(entries, digest);
      return Err(NoMigrations);
    }
    var gap := Scan(migrations);
    if gap.Some? {
      GapIsFault(entries, digest, migrations, gap.value);
      return Err(WrongVersion(gap.value + 1, migrations[gap.value].version));
    }
    ScanSucceeds(entries, digest, migrations);
    return Ok(migrations);
  }

  /** The contiguity scan of `Load`: the first position whose version is not the expected one. */
  method Scan(migrations: seq<Migration>) returns (gap: Option<nat>)
    ensures gap.None? ==> forall k :: 0 <= k < |migrations| ==> migrations[k].version == k + 1
    ensures gap.Some? ==>
      && gap.value < |migrations| && migrations[gap.value].version != gap.value + 1
      && forall k :: 0 <= k < gap.value ==> migrations[k].version == k + 1
  {
    for index := 0 to |migrations|
      invariant forall k :: 0 <= k < index ==> migrations[k].version == k + 1
    {
      var expected := index + 1;
      if migrations[index].version != expected {
        return Some(index);
      }
    }
    return None;
  }

  /** The result does not depend on the listing's order: there is only one arrangement. */
  lemma LoadIsUnique(a: seq<Migration>, b: seq<Migration>)
    requires multiset(a) == multiset(b) && Versions(a) == Contiguous(|a|) && Versions(b) == Contiguous(|b|)
    ensures a == b
  {
    assert |a| == |multiset(a)| == |multiset(b)| == |b|;
    forall i | 0 <= i < |a| ensures a[i] == b[i] {
      assert a[i] in multiset(b);
      var k :| 0 <= k < |b| && b[k] == a[i];
      assert Versions(a)[i] == i + 1 && Versions(b)[k] == k + 1;
    }
  }

  /** Loadable listings have an arrangement, and duplicates, gaps and version 0 have none. */
  lemma LoadableMeaning(entries: seq<FileEntry>, digest: Text -> Digest, ms: seq<Migration>)
    requires LoadsTo(entries, digest, ms)
    ensures Loadable(entries, digest)
  {
    var collected := Collected(entries, digest);
    VersionsOfPermutation(ms, collected);
    assert |ms| == |multiset(ms)| == |multiset(collected)| == |collected|;
  }

  lemma {:induction false} CollectedOfPermutation(a: seq<FileEntry>, b: seq<FileEntry>, digest: Text -> Digest)
    requires multiset(a) == multiset(b) && GoodFiles(a)
    ensures GoodFiles(b) && multiset(Collected(a, digest)) == multiset(Collected(b, digest))
    decreases |a|
  {
    if a == [] {
      assert |multiset(b)| == 0;
    } else {
      var n := |a| - 1;
      var k := MatchLast(a, b);
      CollectedOfPermutation(a[..n], b[..k] + b[k + 1..], digest);
      GoodWithout(b, k);
      SameRest(a, b, k, digest);
    }
  }

  lemma {:induction false} SameRest(a: seq<FileEntry>, b: seq<FileEntry>, k: nat, digest: Text -> Digest)
    requires k < |b| && a != [] && a[|a| - 1] == b[k] && GoodFiles(a) && GoodFiles(b)
    requires GoodFiles(a[..|a| - 1]) && GoodFiles(b[..k] + b[k + 1..])
    requires multiset(Collected(a[..|a| - 1], digest)) == multiset(Collected(b[..k] + b[k + 1..], digest))
    ensures multiset(Collected(a, digest)) == multiset(Collected(b, digest))
  {
    var n := |a| - 1;
    assert a[..n] + a[n + 1..] == a[..n];
    CollectedWithout(a, n, digest);
    CollectedWithout(b, k, digest);
  }

  lemma GoodWithout(b: seq<FileEntry>, k: nat)
    requires k < |b| && GoodFiles(b[..k] + b[k + 1..]) && (Skipped(b[k]) || GoodFile(b[k]))
    ensures GoodFiles(b)
  {
    var rest := b[..k] + b[k + 1..];
    assert forall i :: 0 <= i < k ==> b[i] == rest[i];
    assert forall i :: k < i < |b| ==> b[i] == rest[i - 1];
  }

  lemma {:induction false} CollectedWithout(b: seq<FileEntry>, k: nat, digest: Text -> Digest)
    requires k < |b| && GoodFiles(b)
    ensures GoodFiles(b[..k] + b[k + 1..]) && GoodFiles([b[k]])
    ensures multiset(Collected(b, digest)) == multiset(Collected(b[..k] + b[k + 1..], digest)) + multiset(Collected([b[k]], digest))
  {
    var front, back, one := b[..k], b[k + 1..], [b[k]];
    assert b == (front + one) + back;
    CollectedAppend(front, one, digest);
    CollectedAppend(front + one, back, digest);
    CollectedAppend(front, back, digest);
    MiddleOut(Collected(front, digest), Collected(one, digest), Collected(back, digest));
  }

  lemma MiddleOut<T>(x: seq<T>, y: seq<T>, z: seq<T>)
    ensures multiset((x + y) + z) == multiset(x + z) + multiset(y)
  {
  }

  lemma {:induction false} CollectedAppend(a: seq<FileEntry>, b: seq<FileEntry>, digest: Text -> Digest)
    requires GoodFiles(a) && GoodFiles(b)
    ensures GoodFiles(a + b) && Collected(a + b, digest) == Collected(a, digest) + Collected(b, digest)
    decreases |b|
  {
    if b == [] {
      assert a + b == a;
    } else {
      var n := |b| - 1;
      CollectedAppend(a, b[..n], digest);
      assert (a + b)[..|a + b| - 1] == a + b[..n];
    }
  }

  /** Any reordering of the directory listing loads to the same migrations. */
  lemma ListingOrderIsIrrelevant(a: seq<FileEntry>, b: seq<FileEntry>, digest: Text -> Digest, ms: seq<Migration>)
    requires multiset(a) == multiset(b) && LoadsTo(a, digest, ms)
    ensures LoadsTo(b, digest, ms)
    ensures forall other :: LoadsTo(b, digest, other) ==> other == ms
  {
    CollectedOfPermutation(a, b, digest);
    forall other | LoadsTo(b, digest, other) ensures other == ms {
      LoadIsUnique(other, ms);
    }
  }
}
