/** The content registry table and its snapshot synchronisation. */
module Registry {
  import opened Base
  import opened Texts
  import opened Manifest

  datatype Row = Row(kind: Text, status: Status, commentsEnabled: bool, managedBy: Text)

  type Table = map<Text, Row>

  /** The policy test of comment creation: published with comments enabled. */
  predicate AcceptsComments(row: Row) {
    row.status == Published && row.commentsEnabled
  }

  function RowFor(item: Item, source: Text): Row {
    Row(item.kind, item.status, item.commentsEnabled, source)
  }

  /** `IS DISTINCT FROM` over the columns that an upsert may overwrite. */
  predicate PolicyDiffers(row: Row, item: Item) {
    row.kind != item.kind || row.status != item.status || row.commentsEnabled != item.commentsEnabled
  }

  /** Whether the upsert statement inserts or updates a row. */
  predicate UpsertApplies(view: Table, source: Text, item: Item) {
    item.slug !in view || (view[item.slug].managedBy == source && PolicyDiffers(view[item.slug], item))
  }

  ghost function Lookup(t: Table, slug: Text): Option<Row> {
    if slug in t then Some(t[slug]) else None
  }

  ghost function ItemAt(items: seq<Item>, slug: Text): Item
    requires slug in SlugsOf(items)
  {
    var i :| 0 <= i < |items| && items[i].slug == slug;
    items[i]
  }

  /** No item names a slug that another source manages. */
  ghost predicate NoConflict(t: Table, source: Text, items: seq<Item>) {
    forall i :: 0 <= i < |items| && items[i].slug in t ==> t[items[i].slug].managedBy == source
  }

  /** Item `i` is the first one whose slug another source manages. */
  ghost predicate FirstConflict(t: Table, source: Text, items: seq<Item>, i: nat) {
    && i < |items|
    && items[i].slug in t && t[items[i].slug].managedBy != source
    && NoConflict(t, source, items[..i])
  }

  /** The table with one row for every item. */
  ghost function Upserted(t: Table, source: Text, items: seq<Item>): Table {
    map s | s in t.Keys + SlugsOf(items) :: if s in SlugsOf(items) then RowFor(ItemAt(items, s), source) else t[s]
  }

  /** The items whose row is missing or differs. */
  ghost function ChangedSlugs(t: Table, source: Text, items: seq<Item>): set<Text> {
    set s | s in SlugsOf(items) && (s !in t || t[s] != RowFor(ItemAt(items, s), source))
  }

  /** The source's rows that the snapshot omits and that are not archived yet. */
  ghost function AbsentSlugs(t: Table, source: Text, items: seq<Item>): set<Text> {
    set s | s in t.Keys && t[s].managedBy == source && s !in SlugsOf(items) && t[s].status != Archived
  }

  ghost function ArchivedRows(t: Table, slugs: set<Text>): Table {
    map s | s in t.Keys :: if s in slugs then t[s].(status := Archived) else t[s]
  }

  /** The registry after a successful synchronisation, as the documentation promises it. */
  ghost function Synced(t: Table, source: Text, items: seq<Item>): Table {
    ArchivedRows(Upserted(t, source, items), AbsentSlugs(t, source, items))
  }

  lemma ItemAtIsUnique(items: seq<Item>, i: nat)
    requires i < |items| && Distinct(items)
    ensures ItemAt(items, items[i].slug) == items[i]
  {
  }

  /** One upsert extends the synchronised prefix by one item. */
  lemma UpsertExtends(t: Table, source: Text, items: seq<Item>, k: nat)
    requires k < |items| && Distinct(items)
    ensures items[k].slug !in SlugsOf(items[..k])
    ensures Upserted(t, source, items[..k + 1]) == Upserted(t, source, items[..k])[items[k].slug := RowFor(items[k], source)]
    ensures ChangedSlugs(t, source, items[..k + 1]) ==
            ChangedSlugs(t, source, items[..k]) +
            (if items[k].slug in t && t[items[k].slug] == RowFor(items[k], source) then {} else {items[k].slug})
    ensures items[k].slug !in ChangedSlugs(t, source, items[..k])
    ensures Lookup(Upserted(t, source, items[..k]), items[k].slug) == Lookup(t, items[k].slug)
    ensures SlugsOf(items[..k + 1]) == SlugsOf(items[..k]) + {items[k].slug}
  {
    SlugsGrow(items, k);
    forall s | s in SlugsOf(items[..k]) ensures ItemAt(items[..k + 1], s) == ItemAt(items[..k], s) {
      var i :| 0 <= i < |items[..k]| && items[..k][i].slug == s;
      ItemAtIsUnique(items[..k], i);
      ItemAtIsUnique(items[..k + 1], i);
    }
    ItemAtIsUnique(items[..k + 1], k);
  }

  /** One round of the upsert loop: the owner check on the working view finds exactly the
      conflicts of the original table, and the statement extends the prefix. */
  lemma OneUpsert(t: Table, source: Text, items: seq<Item>, k: nat)
    requires k < |items| && Distinct(items) && NoConflict(t, source, items[..k])
    ensures var view, item := Upserted(t, source, items[..k]), items[k];
      if item.slug in view && view[item.slug].managedBy != source
      then FirstConflict(t, source, items, k) && !NoConflict(t, source, items)
      else
        && NoConflict(t, source, items[..k + 1])
        && Upserted(t, source, items[..k + 1]) == (if UpsertApplies(view, source, item) then view[item.slug := RowFor(item, source)] else view)
        && |ChangedSlugs(t, source, items[..k + 1])| == |ChangedSlugs(t, source, items[..k])| + (if UpsertApplies(view, source, item) then 1 else 0)
    ensures SlugsOf(items[..k + 1]) == SlugsOf(items[..k]) + {items[k].slug}
  {
    UpsertExtends(t, source, items, k);
    ConflictExtends(t, source, items, k);
    var view, item := Upserted(t, source, items[..k]), items[k];
    assert Lookup(view, item.slug) == Lookup(t, item.slug);
    if item.slug in view && !UpsertApplies(view, source, item) && view[item.slug].managedBy == source {
      assert view[item.slug := RowFor(item, source)] == view;
    }
  }

  lemma ConflictExtends(t: Table, source: Text, items: seq<Item>, k: nat)
    requires k < |items| && NoConflict(t, source, items[..k])
    ensures if items[k].slug in t && t[items[k].slug].managedBy != source
            then FirstConflict(t, source, items, k) && !NoConflict(t, source, items)
            else NoConflict(t, source, items[..k + 1])
  {
  }

  /** Functional correctness read row by row: every manifest row equals its item, the
      source's other rows are archived with kind and policy kept, other sources' rows are
      untouched, and no row appears or disappears otherwise. */
  lemma SyncedRows(t: Table, source: Text, items: seq<Item>)
    requires Distinct(items) && NoConflict(t, source, items)
    ensures var r := Synced(t, source, items);
      && r.Keys == t.Keys + SlugsOf(items)
      && (forall i :: 0 <= i < |items| ==>
            items[i].slug in r && r[items[i].slug] == Row(items[i].kind, items[i].status, items[i].commentsEnabled, source))
      && (forall s :: s in t && s !in SlugsOf(items) && t[s].managedBy == source ==> r[s] == t[s].(status := Archived))
      && (forall s :: s in t && t[s].managedBy != source ==> s !in SlugsOf(items) && r[s] == t[s])
  {
  }

  /** `Changed` and `Archived` are exact: together they are the rows that differ afterwards. */
  lemma CountsAreExact(t: Table, source: Text, items: seq<Item>)
    requires Distinct(items) && NoConflict(t, source, items)
    ensures var r := Synced(t, source, items);
      ChangedSlugs(t, source, items) + AbsentSlugs(t, source, items) == set s | s in r.Keys && (s !in t || r[s] != t[s])
    ensures ChangedSlugs(t, source, items) !! AbsentSlugs(t, source, items)
  {
  }

  /** The upsert loop: the working view, the slugs seen and the number of rows written, or
      the first slug that another source manages. */
  method UpsertItems(t: Table, source: Text, items: seq<Item>) returns (result: Result<(Table, seq<Text>, nat), Text>)
    requires Distinct(items)
    ensures result.Ok? <==> NoConflict(t, source, items)
    ensures result.Ok? ==>
      && result.value.0 == Upserted(t, source, items)
      && (forall s :: s in result.value.1 <==> s in SlugsOf(items))
      && result.value.2 == |ChangedSlugs(t, source, items)|
    ensures result.Err? ==> exists i: nat :: FirstConflict(t, source, items, i) && result.error == items[i].slug
  {
    var view, slugs, changed := t, [], 0;
    for index := 0 to |items|
      invariant view == Upserted(t, source, items[..index])
      invariant changed == |ChangedSlugs(t, source, items[..index])|
      invariant NoConflict(t, source, items[..index])
      invariant forall s :: s in slugs <==> s in SlugsOf(items[..index])
    {
      var item := items[index];
      slugs := slugs + [item.slug];
      OneUpsert(t, source, items, index);
      if item.slug in view && view[item.slug].managedBy != source {
        return Err(item.slug);
      }
      if UpsertApplies(view, source, item) {
        view := view[item.slug := RowFor(item, source)];
        changed := changed + 1;
      }
    }
    assert items[..|items|] == items;
    return Ok((view, slugs, changed));
  }

  /** Re-applying a snapshot changes nothing and reports (0, 0). */
  lemma SyncIsIdempotent(t: Table, source: Text, items: seq<Item>)
    requires Distinct(items) && NoConflict(t, source, items)
    ensures var r := Synced(t, source, items);
      && NoConflict(r, source, items)
      && Synced(r, source, items) == r
      && ChangedSlugs(r, source, items) == {} && AbsentSlugs(r, source, items) == {}
  {
    SyncedRows(t, source, items);
    var r := Synced(t, source, items);
    assert NoConflict(r, source, items);
    forall s ensures s !in ChangedSlugs(r, source, items) && s !in AbsentSlugs(r, source, items) {
      SyncedAt(t, source, items, s);
      assert Lookup(r, s) == if s in r then Some(r[s]) else None;
    }
    assert ChangedSlugs(r, source, items) == {} && AbsentSlugs(r, source, items) == {};
    forall s ensures Lookup(Synced(r, source, items), s) == Lookup(r, s) {
      SyncedAt(t, source, items, s);
      SyncedAt(r, source, items, s);
    }
    LookupsDecide(Synced(r, source, items), r);
  }

  /** The order of the manifest's items is irrelevant. */
  lemma SyncIgnoresItemOrder(t: Table, source: Text, items: seq<Item>, other: seq<Item>)
    requires Distinct(items) && multiset(items) == multiset(other)
    ensures Distinct(other) && (NoConflict(t, source, items) <==> NoConflict(t, source, other))
    ensures Synced(t, source, items) == Synced(t, source, other)
    ensures ChangedSlugs(t, source, items) == ChangedSlugs(t, source, other)
    ensures AbsentSlugs(t, source, items) == AbsentSlugs(t, source, other)
  {
    PermutationIsDistinct(items, other);
    assert forall x :: x in items <==> x in multiset(items);
    assert forall x :: x in other <==> x in multiset(other);
    SameItems(items, other);
    SameItems(other, items);
    assert SlugsOf(items) == SlugsOf(other);
    assert Upserted(t, source, items) == Upserted(t, source, other);
    assert AbsentSlugs(t, source, items) == AbsentSlugs(t, source, other);
    assert ChangedSlugs(t, source, items) == ChangedSlugs(t, source, other);
    ConflictByMembership(t, source, items);
    ConflictByMembership(t, source, other);
  }

  lemma ConflictByMembership(t: Table, source: Text, items: seq<Item>)
    ensures NoConflict(t, source, items) <==> forall x :: x in items && x.slug in t ==> t[x.slug].managedBy == source
  {
  }

  lemma SameItems(items: seq<Item>, other: seq<Item>)
    requires Distinct(items) && Distinct(other) && forall x :: x in items <==> x in other
    ensures forall i :: 0 <= i < |items| ==> items[i] in other
    ensures forall s | s in SlugsOf(items) :: s in SlugsOf(other) && ItemAt(items, s) == ItemAt(other, s)
  {
  }

  lemma PermutationIsDistinct(items: seq<Item>, other: seq<Item>)
    requires Distinct(items) && multiset(items) == multiset(other)
    ensures Distinct(other)
  {
    forall i, j | 0 <= i < j < |other| ensures other[i].slug != other[j].slug {
      if other[i].slug == other[j].slug {
        assert other[i] in multiset(items) && other[j] in multiset(items);
        assert other[i] in items && other[j] in items;
        assert other == other[..j] + [other[j]] + other[j + 1..];
        assert other[i] == other[..j][i] && other[i] in multiset(other[..j]);
        assert multiset(other)[other[i]] >= 2;
        OncePerItem(items, other[i]);
      }
    }
  }

  lemma {:induction false} OncePerItem(items: seq<Item>, x: Item)
    requires Distinct(items)
    ensures multiset(items)[x] <= 1
  {
    if items != [] {
      var last := |items| - 1;
      assert items == items[..last] + [items[last]];
      OncePerItem(items[..last], x);
      assert x in multiset(items[..last]) ==> x in items[..last];
    }
  }

  /** One synchronisation attempt: all or nothing. */
  ghost function SyncOrKeep(t: Table, snapshot: Snapshot): Table {
    if ValidSnapshot(snapshot) && NoConflict(t, snapshot.source, snapshot.items)
    then Synced(t, snapshot.source, snapshot.items) else t
  }

  ghost function SyncRun(t: Table, run: seq<Snapshot>): Table {
    if run == [] then t else SyncOrKeep(SyncRun(t, run[..|run| - 1]), run[|run| - 1])
  }

  ghost predicate Succeeds(t: Table, run: seq<Snapshot>, k: nat)
    requires k < |run|
  {
    ValidSnapshot(run[k]) && NoConflict(SyncRun(t, run[..k]), run[k].source, run[k].items)
  }

  ghost predicate PublishedRow(t: Table, source: Text, slug: Text) {
    slug in t && t[slug].managedBy == source && t[slug].status == Published
  }

  ghost predicate PublishedItem(items: seq<Item>, slug: Text) {
    exists i :: 0 <= i < |items| && items[i].slug == slug && items[i].status == Published
  }

  ghost predicate OpenRow(t: Table, source: Text, slug: Text) {
    slug in t && t[slug].managedBy == source && AcceptsComments(t[slug])
  }

  ghost predicate OpenItem(items: seq<Item>, slug: Text) {
    exists i :: 0 <= i < |items| && items[i].slug == slug && items[i].status == Published && items[i].commentsEnabled
  }

  /** One source's rows are those of one snapshot: each item has its row, and every other row
      of the source is archived. */
  ghost predicate Mirrors(t: Table, source: Text, items: seq<Item>) {
    && (forall i :: 0 <= i < |items| ==>
          items[i].slug in t && t[items[i].slug] == Row(items[i].kind, items[i].status, items[i].commentsEnabled, source))
    && (forall s :: s in t && t[s].managedBy == source && s !in SlugsOf(items) ==> t[s].status == Archived)
  }

  lemma SucceedsEarlier(t: Table, run: seq<Snapshot>, j: nat)
    requires j < |run| - 1
    ensures run[..|run| - 1][j] == run[j] && (Succeeds(t, run[..|run| - 1], j) <==> Succeeds(t, run, j))
  {
    assert run[..|run| - 1][..j] == run[..j];
  }

  /** Whatever the attempts of any sources, a source's rows are those of its last successful
      snapshot; every other row it ever had is archived. */
  lemma {:induction false} LastSnapshotWins(t: Table, run: seq<Snapshot>, k: nat)
    requires k < |run| && Succeeds(t, run, k)
    requires forall j :: k < j < |run| && run[j].source == run[k].source ==> !Succeeds(t, run, j)
    ensures Mirrors(SyncRun(t, run), run[k].source, run[k].items)
  {
    var last := |run| - 1;
    var before := SyncRun(t, run[..last]);
    if k == last {
      SyncMirrors(before, run[last]);
    } else {
      SucceedsEarlier(t, run, k);
      forall j | k < j < last && run[..last][j].source == run[k].source ensures !Succeeds(t, run[..last], j) {
        SucceedsEarlier(t, run, j);
      }
      LastSnapshotWins(t, run[..last], k);
      OtherSyncKeepsMirror(before, run[last], run[k].source, run[k].items);
    }
  }

  lemma SyncMirrors(t: Table, snapshot: Snapshot)
    requires ValidSnapshot(snapshot) && NoConflict(t, snapshot.source, snapshot.items)
    ensures Mirrors(SyncOrKeep(t, snapshot), snapshot.source, snapshot.items)
  {
    SyncedRows(t, snapshot.source, snapshot.items);
  }

  lemma OtherSyncKeepsMirror(t: Table, snapshot: Snapshot, source: Text, mirrored: seq<Item>)
    requires Mirrors(t, source, mirrored)
    requires snapshot.source == source ==> !(ValidSnapshot(snapshot) && NoConflict(t, source, snapshot.items))
    ensures Mirrors(SyncOrKeep(t, snapshot), source, mirrored)
  {
    if ValidSnapshot(snapshot) && NoConflict(t, snapshot.source, snapshot.items) {
      SyncedRows(t, snapshot.source, snapshot.items);
      OtherSourcesKeepTheirRows(t, snapshot.source, snapshot.items, source);
    }
  }

  /** Read for the public features: the source's published slugs, and those open for comments,
      are exactly those of the mirrored snapshot. */
  lemma MirroredSlugs(t: Table, source: Text, items: seq<Item>)
    requires Mirrors(t, source, items)
    ensures forall s :: PublishedRow(t, source, s) <==> PublishedItem(items, s)
    ensures forall s :: OpenRow(t, source, s) <==> OpenItem(items, s)
  {
    forall s | s in SlugsOf(items) ensures exists i :: 0 <= i < |items| && items[i].slug == s && t[s] == RowFor(items[i], source) {
      var i :| 0 <= i < |items| && items[i].slug == s;
    }
  }

  /** A synchronisation neither changes another source's rows nor hands it new ones. */
  lemma OtherSourcesKeepTheirRows(t: Table, source: Text, items: seq<Item>, other: Text)
    requires Distinct(items) && NoConflict(t, source, items) && other != source
    ensures var r := Synced(t, source, items);
      forall s :: s in r && r[s].managedBy == other <==> s in t && t[s].managedBy == other && s in r && r[s] == t[s]
  {
  }

  /** Successful synchronisations of two sources with disjoint slugs commute, counts included. */
  lemma SyncsCommute(t: Table, source: Text, items: seq<Item>, source': Text, items': seq<Item>)
    requires source != source' && Distinct(items) && Distinct(items') && SlugsOf(items) !! SlugsOf(items')
    requires NoConflict(t, source, items) && NoConflict(Synced(t, source, items), source', items')
    ensures NoConflict(t, source', items') && NoConflict(Synced(t, source', items'), source, items)
    ensures Synced(Synced(t, source, items), source', items') == Synced(Synced(t, source', items'), source, items)
    ensures ChangedSlugs(Synced(t, source', items'), source, items) == ChangedSlugs(t, source, items)
    ensures AbsentSlugs(Synced(t, source', items'), source, items) == AbsentSlugs(t, source, items)
    ensures ChangedSlugs(Synced(t, source, items), source', items') == ChangedSlugs(t, source', items')
    ensures AbsentSlugs(Synced(t, source, items), source', items') == AbsentSlugs(t, source', items')
  {
    SyncedRows(t, source, items);
    forall i | 0 <= i < |items'| && items'[i].slug in t ensures t[items'[i].slug].managedBy == source' {
      assert items'[i].slug in SlugsOf(items') && items'[i].slug in Synced(t, source, items);
    }
    SyncLeavesDisjointSlugs(t, source, items, source', items');
    SyncLeavesDisjointSlugs(t, source', items', source, items);
    SyncsMeet(t, source, items, source', items');
  }

  /** What a synchronisation makes of one slug. */
  lemma SyncedAt(t: Table, source: Text, items: seq<Item>, slug: Text)
    ensures Lookup(Synced(t, source, items), slug) ==
            if slug in SlugsOf(items) then Some(RowFor(ItemAt(items, slug), source))
            else if slug in t && t[slug].managedBy == source then Some(t[slug].(status := Archived))
            else Lookup(t, slug)
  {
  }

  lemma SyncsMeet(t: Table, source: Text, items: seq<Item>, source': Text, items': seq<Item>)
    requires source != source' && SlugsOf(items) !! SlugsOf(items')
    ensures Synced(Synced(t, source, items), source', items') == Synced(Synced(t, source', items'), source, items)
  {
    var a, b := Synced(t, source, items), Synced(t, source', items');
    var ab, ba := Synced(a, source', items'), Synced(b, source, items);
    forall s ensures Lookup(ab, s) == Lookup(ba, s) {
      SyncedAt(t, source, items, s);
      SyncedAt(t, source', items', s);
      SyncedAt(a, source', items', s);
      SyncedAt(b, source, items, s);
    }
    LookupsDecide(ab, ba);
  }

  lemma LookupsDecide(t: Table, t': Table)
    requires forall s :: Lookup(t, s) == Lookup(t', s)
    ensures t == t'
  {
    forall s ensures s in t <==> s in t' {
      assert Lookup(t, s) == Lookup(t', s);
    }
    forall s | s in t ensures t[s] == t'[s] {
      assert Lookup(t, s) == Lookup(t', s);
    }
  }

  lemma SyncLeavesDisjointSlugs(t: Table, source: Text, items: seq<Item>, source': Text, items': seq<Item>)
    requires source != source' && Distinct(items) && Distinct(items') && SlugsOf(items) !! SlugsOf(items')
    requires NoConflict(t, source, items) && NoConflict(t, source', items')
    ensures var r := Synced(t, source, items);
      && NoConflict(r, source', items')
      && ChangedSlugs(r, source', items') == ChangedSlugs(t, source', items')
      && AbsentSlugs(r, source', items') == AbsentSlugs(t, source', items')
  {
    SyncedRows(t, source, items);
    OtherSourcesKeepTheirRows(t, source, items, source');
    var r := Synced(t, source, items);
    forall s | s in SlugsOf(items') ensures (s in r <==> s in t) && (s in t ==> r[s] == t[s]) {
      assert s !in SlugsOf(items);
      var i :| 0 <= i < |items'| && items'[i].slug == s;
      assert s in t ==> t[s].managedBy == source';
    }
    forall i | 0 <= i < |items'| && items'[i].slug in r ensures r[items'[i].slug].managedBy == source' {
      assert items'[i].slug in SlugsOf(items');
    }
  }
}
