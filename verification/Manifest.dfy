/** The deployment manifest: one source's complete view of its content. */
module Manifest {
  import opened Base
  import opened Texts
  import opened Regexes
  import opened Scanners

  const MANIFEST_SCHEMA_VERSION := 1
  const MANIFEST_MODE_FULL := Str("full")
  const MAX_MANIFEST_ITEMS := 10000
  const MAX_KIND_CHARS := 50
  const MAX_SOURCE_CHARS := 50

  /** A publication state; `OtherStatus` is any string that is not one of the three. */
  datatype Status = Draft | Published | Archived | OtherStatus(text: Text)

  datatype Item = Item(slug: Text, kind: Text, status: Status, commentsEnabled: bool)

  datatype Snapshot = Snapshot(schemaVersion: int, mode: Text, source: Text, revision: Text, items: seq<Item>)

  datatype ManifestError =
    | BadSchemaVersion
    | BadMode
    | BadSource
    | BadRevision
    | BadItemCount
    | BadSlug(index: nat)
    | BadKind(index: nat)
    | BadStatus(index: nat)
    | DuplicateSlug(slug: Text)

  function SlugsOf(items: seq<Item>): set<Text> {
    set i | 0 <= i < |items| :: items[i].slug
  }

  ghost predicate Distinct(items: seq<Item>) {
    forall i, j :: 0 <= i < j < |items| ==> items[i].slug != items[j].slug
  }

  ghost predicate ValidItem(item: Item) {
    && Bounded(SLUG, MAX_SLUG_CHARS, item.slug)
    && Bounded(IDENTIFIER, MAX_KIND_CHARS, item.kind)
    && !item.status.OtherStatus?
  }

  ghost predicate ValidHeader(snapshot: Snapshot) {
    && snapshot.schemaVersion == MANIFEST_SCHEMA_VERSION
    && snapshot.mode == MANIFEST_MODE_FULL
    && Bounded(IDENTIFIER, MAX_SOURCE_CHARS, snapshot.source)
    && Matches(REVISION, snapshot.revision)
    && 1 <= |snapshot.items| <= MAX_MANIFEST_ITEMS
  }

  /** The manifest contract: the schema's field languages plus global slug uniqueness. */
  ghost predicate ValidSnapshot(snapshot: Snapshot) {
    && ValidHeader(snapshot)
    && (forall i :: 0 <= i < |snapshot.items| ==> ValidItem(snapshot.items[i]))
    && Distinct(snapshot.items)
  }

  /** What an item error reports: the first item at fault and its first failing check. */
  ghost predicate FaultAt(items: seq<Item>, i: nat, error: ManifestError) {
    && i < |items|
    && (forall j :: 0 <= j < i ==> ValidItem(items[j]))
    && Distinct(items[..i])
    && var item := items[i];
       match error
       case BadSlug(n) => n == i && !Bounded(SLUG, MAX_SLUG_CHARS, item.slug)
       case BadKind(n) => n == i && Bounded(SLUG, MAX_SLUG_CHARS, item.slug) && !Bounded(IDENTIFIER, MAX_KIND_CHARS, item.kind)
       case BadStatus(n) =>
         && n == i && Bounded(SLUG, MAX_SLUG_CHARS, item.slug) && Bounded(IDENTIFIER, MAX_KIND_CHARS, item.kind)
         && item.status.OtherStatus?
       case DuplicateSlug(s) => ValidItem(item) && s == item.slug && s in SlugsOf(items[..i])
       case _ => false
  }

  ghost predicate ItemFault(items: seq<Item>, error: ManifestError) {
    exists i: nat :: FaultAt(items, i, error)
  }

  /** What a rejected snapshot reports: its first failing header check, or its first item fault. */
  ghost predicate SnapshotFault(snapshot: Snapshot, error: ManifestError) {
    if snapshot.schemaVersion != MANIFEST_SCHEMA_VERSION then error == BadSchemaVersion
    else if snapshot.mode != MANIFEST_MODE_FULL then error == BadMode
    else if !Bounded(IDENTIFIER, MAX_SOURCE_CHARS, snapshot.source) then error == BadSource
    else if !Matches(REVISION, snapshot.revision) then error == BadRevision
    else if !(1 <= |snapshot.items| <= MAX_MANIFEST_ITEMS) then error == BadItemCount
    else ItemFault(snapshot.items, error)
  }

  method ValidKind(kind: Text) returns (ok: bool)
    ensures ok <==> Bounded(IDENTIFIER, MAX_KIND_CHARS, kind)
  {
    ok := ValidIdentifier(kind, MAX_KIND_CHARS, true);
  }

  /** Accepts exactly the valid snapshots, and names the first fault otherwise. */
  method ValidateSnapshot(snapshot: Snapshot) returns (error: Option<ManifestError>)
    ensures error.None? <==> ValidSnapshot(snapshot)
    ensures error.Some? ==> SnapshotFault(snapshot, error.value)
  {
    if snapshot.schemaVersion != MANIFEST_SCHEMA_VERSION {
      return Some(BadSchemaVersion);
    }
    if snapshot.mode != MANIFEST_MODE_FULL {
      return Some(BadMode);
    }
    var ok := ValidIdentifier(snapshot.source, MAX_SOURCE_CHARS, true);
    if !ok {
      return Some(BadSource);
    }
    ok := ValidRevision(snapshot.revision);
    if !ok {
      return Some(BadRevision);
    }
    if |snapshot.items| == 0 || |snapshot.items| > MAX_MANIFEST_ITEMS {
      return Some(BadItemCount);
    }

    error := ValidateItems(snapshot.items);
  }

  /** The item loop of `ValidateSnapshot`. */
  method ValidateItems(items: seq<Item>) returns (error: Option<ManifestError>)
    ensures error.None? <==> (forall i :: 0 <= i < |items| ==> ValidItem(items[i])) && Distinct(items)
    ensures error.Some? ==> ItemFault(items, error.value)
  {
    var seen: set<Text> := {};
    for index := 0 to |items|
      invariant seen == SlugsOf(items[..index])
      invariant forall j :: 0 <= j < index ==> ValidItem(items[j])
      invariant Distinct(items[..index])
    {
      var item := items[index];
      var ok := ValidSlug(item.slug);
      if !ok {
        assert FaultAt(items, index, BadSlug(index));
        return Some(BadSlug(index));
      }
      ok := ValidKind(item.kind);
      if !ok {
        assert FaultAt(items, index, BadKind(index));
        return Some(BadKind(index));
      }
      if item.status != Draft && item.status != Published && item.status != Archived {
        assert FaultAt(items, index, BadStatus(index));
        return Some(BadStatus(index));
      }
      if item.slug in seen {
        DuplicateIsFault(items, index);
        return Some(DuplicateSlug(item.slug));
      }
      SlugsGrow(items, index);
      seen := seen + {item.slug};
    }
    assert items[..|items|] == items;
    return None;
  }

  lemma DuplicateIsFault(items: seq<Item>, index: nat)
    requires index < |items| && ValidItem(items[index]) && items[index].slug in SlugsOf(items[..index])
    requires (forall j :: 0 <= j < index ==> ValidItem(items[j])) && Distinct(items[..index])
    ensures !Distinct(items) && ItemFault(items, DuplicateSlug(items[index].slug))
  {
    var k :| 0 <= k < |items[..index]| && items[..index][k].slug == items[index].slug;
    assert items[k].slug == items[index].slug;
    assert FaultAt(items, index, DuplicateSlug(items[index].slug));
  }

  lemma SlugsGrow(items: seq<Item>, index: nat)
    requires index < |items|
    ensures SlugsOf(items[..index + 1]) == SlugsOf(items[..index]) + {items[index].slug}
    ensures Distinct(items[..index]) && items[index].slug !in SlugsOf(items[..index]) ==> Distinct(items[..index + 1])
  {
  }
}
