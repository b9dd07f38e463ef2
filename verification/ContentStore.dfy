/** The content registry's store: one table that the synchronisation transaction replaces. */
module ContentStore {
  import opened Base
  import opened Texts
  import opened Manifest
  import opened Registry
  import opened Database

  datatype State = State(published: bool, commentsEnabled: bool)

  datatype SyncResult = SyncResult(changed: nat, archived: nat)

  datatype SyncError = Invalid(error: ManifestError) | OwnedElsewhere(slug: Text)

  /** The store's answer in the terms of the sequential specification. */
  function OutcomeOf(result: Result<SyncResult, SyncError>): Outcome {
    match result
    case Ok(r) => SyncDone(r.changed, r.archived)
    case Err(Invalid(_)) => InvalidManifest
    case Err(OwnedElsewhere(slug)) => OwnedBySomeoneElse(slug)
  }

  class Store {
    var contentItems: Table

    constructor ()
      ensures contentItems == map[]
    {
      contentItems := map[];
    }

    /** Missing and unpublished rows both report `published == false`. */
    method ContentState(slug: Text) returns (state: State)
      ensures state.published <==> slug in contentItems && contentItems[slug].status == Published
      ensures state.commentsEnabled <==> slug in contentItems && contentItems[slug].commentsEnabled
    {
      if slug !in contentItems {
        return State(false, false);
      }
      return State(contentItems[slug].status == Published, contentItems[slug].commentsEnabled);
    }

    /** The transaction works on `view`; only the commit at the end assigns the table. */
    method SyncSnapshot(snapshot: Snapshot) returns (result: Result<SyncResult, SyncError>)
      modifies this
      ensures (Db(contentItems, map[], []), OutcomeOf(result)) == AtomicSync(Db(old(contentItems), map[], []), snapshot)
      ensures result.Ok? <==> ValidSnapshot(snapshot) && NoConflict(old(contentItems), snapshot.source, snapshot.items)
      ensures result.Ok? ==>
        && contentItems == Synced(old(contentItems), snapshot.source, snapshot.items)
        && result.value.changed == |ChangedSlugs(old(contentItems), snapshot.source, snapshot.items)|
        && result.value.archived == |AbsentSlugs(old(contentItems), snapshot.source, snapshot.items)|
      ensures result.Ok? ==> Mirrors(contentItems, snapshot.source, snapshot.items)
      ensures result.Err? ==> contentItems == old(contentItems)
      ensures result.Err? ==>
        if ValidSnapshot(snapshot) then
          result.error.OwnedElsewhere? &&
          exists i: nat :: FirstConflict(contentItems, snapshot.source, snapshot.items, i) && result.error.slug == snapshot.items[i].slug
        else result.error.Invalid? && SnapshotFault(snapshot, result.error.error)
    {
      var invalid := ValidateSnapshot(snapshot);
      if invalid.Some? {
        return Err(Invalid(invalid.value));
      }
      var upserted := UpsertItems(contentItems, snapshot.source, snapshot.items);
      if upserted.Err? {
        ConflictIsReported(contentItems, snapshot, upserted.error);
        return Err(OwnedElsewhere(upserted.error));
      }
      var (view, slugs, changed) := upserted.value;
      var absent := set s | s in view.Keys && view[s].managedBy == snapshot.source && s !in slugs && view[s].status != Archived;
      assert absent == AbsentSlugs(contentItems, snapshot.source, snapshot.items);
      view := map s | s in view.Keys :: if s in absent then view[s].(status := Archived) else view[s];
      assert view == Synced(contentItems, snapshot.source, snapshot.items);
      SyncMirrors(contentItems, snapshot);
      contentItems := view;
      return Ok(SyncResult(changed, |absent|));
    }
  }

  lemma {:induction false} ConflictIsReported(t: Table, snapshot: Snapshot, slug: Text)
    requires !NoConflict(t, snapshot.source, snapshot.items)
    requires exists i: nat :: FirstConflict(t, snapshot.source, snapshot.items, i) && slug == snapshot.items[i].slug
    ensures snapshot.items[FirstConflictIndex(t, snapshot.source, snapshot.items)].slug == slug
  {
    var i: nat :| FirstConflict(t, snapshot.source, snapshot.items, i) && slug == snapshot.items[i].slug;
    FirstConflictIsUnique(t, snapshot.source, snapshot.items, i, FirstConflictIndex(t, snapshot.source, snapshot.items));
  }
}
