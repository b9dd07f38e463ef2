/** Cursor pagination of a post's visible comments while the table keeps changing. */
module Pagination {
  import opened Base
  import opened Texts
  import opened Database
  import opened Protocol
  import opened ProtocolInvariant
  import opened CommentStore

  const DEFAULT_PAGE_SIZE := 25
  const MAXIMUM_PAGE_SIZE := 100

  /** What other transactions may do to one post between two pages: comments stay, statuses
      change freely, and new comments get ids above all that the post had. */
  ghost predicate Evolves(slug: Text, db: Db, db': Db) {
    && (forall id :: id in db.comments ==> id in db'.comments && db'.comments[id].slug == db.comments[id].slug)
    && (forall id, earlier :: (id in db'.comments && id !in db.comments && db'.comments[id].slug == slug
                               && earlier in db.comments && db.comments[earlier].slug == slug) ==> earlier < id)
  }

  lemma {:induction false} RunPrefix(st: System, run: seq<Action>, n: nat)
    requires IsRun(st, run) && n <= |run|
    ensures IsRun(st, run[..n])
  {
    if n == |run| {
      assert run[..n] == run;
    } else {
      RunPrefix(st, run[..|run| - 1], n);
      assert run[..|run| - 1][..n] == run[..n];
    }
  }

  /** The committed tables after the first `n` actions of a run. */
  ghost function TablesAfter(st: System, run: seq<Action>, n: nat): Db
    requires IsRun(st, run) && n <= |run|
  {
    RunPrefix(st, run, n);
    After(st, run[..n]).db
  }

  /** Ids are allocated before commit, yet the protocol makes every post evolve this way:
      the post's lock orders allocation and commit alike. */
  lemma {:induction false} ProtocolEvolves(st: System, run: seq<Action>, i: nat, j: nat, slug: Text)
    requires Inv(st) && IsRun(st, run) && i <= j <= |run|
    ensures Evolves(slug, TablesAfter(st, run, i), TablesAfter(st, run, j))
    decreases j
  {
    if i == j {
      EvolvesAsItIs(slug, TablesAfter(st, run, i));
    } else {
      ProtocolEvolves(st, run, i, j - 1, slug);
      ActionEvolves(st, run, j - 1, slug);
      EvolvesOn(slug, TablesAfter(st, run, i), TablesAfter(st, run, j - 1), TablesAfter(st, run, j));
    }
  }

  lemma {:induction false} ActionEvolves(st: System, run: seq<Action>, n: nat, slug: Text)
    requires Inv(st) && IsRun(st, run) && n < |run|
    ensures Evolves(slug, TablesAfter(st, run, n), TablesAfter(st, run, n + 1))
  {
    RunPrefix(st, run, n);
    RunPrefix(st, run, n + 1);
    assert run[..n + 1][..n] == run[..n];
    RunKeepsInv(st, run[..n]);
    StepEvolves(After(st, run[..n]), run[n], slug);
  }

  lemma EvolvesAsItIs(slug: Text, db: Db)
    ensures Evolves(slug, db, db)
  {
  }

  lemma EvolvesOn(slug: Text, a: Db, b: Db, c: Db)
    requires Evolves(slug, a, b) && Evolves(slug, b, c)
    ensures Evolves(slug, a, c)
  {
  }

  lemma StepEvolves(st: System, a: Action, slug: Text)
    requires Inv(st) && Enabled(st, a)
    ensures Evolves(slug, st.db, Next(st, a).db)
  {
    var s := st.sessions[a.session];
    assert SessionOk(st, s);
    if a.Execute? { StepIsFramed(st, s); }
  }

  /** The page size that the service applies to a requested limit. */
  function EffectiveLimit(limit: nat): nat {
    if limit == 0 then DEFAULT_PAGE_SIZE else limit
  }

  /** The handler's `next_before_id`. */
  function NextCursor(page: seq<Comment>, limit: nat): Option<int> {
    if |page| > 0 && (limit == 0 || |page| == limit) then Some(page[|page| - 1].id) else None
  }

  /** The `before_id` of page `k`: zero for the first page, then what the page before returned. */
  function CursorBefore(pages: seq<seq<Comment>>, limit: nat, k: nat): int
    requires k <= |pages| && (k > 0 ==> NextCursor(pages[k - 1], limit).Some?)
  {
    if k == 0 then 0 else NextCursor(pages[k - 1], limit).value
  }

  /** Comments are stored under their own positive ids. */
  ghost predicate Keyed(db: Db) {
    forall id :: id in db.comments ==> id > 0 && db.comments[id].id == id
  }

  /** A client follows cursors: page `k` is read from `dbs[k]` with the cursor that the page
      before returned. The tables may change arbitrarily in between. */
  ghost predicate Walk(dbs: seq<Db>, filter: Filter, limit: nat, pages: seq<seq<Comment>>) {
    && |dbs| == |pages|
    && (forall k :: 0 <= k < |pages| - 1 ==> NextCursor(pages[k], limit).Some?)
    && (forall k :: 0 <= k < |dbs| ==> Keyed(dbs[k]))
    && (forall k :: 0 <= k < |pages| ==> PageRead(dbs, filter, limit, pages, k))
  }

  ghost predicate PageRead(dbs: seq<Db>, filter: Filter, limit: nat, pages: seq<seq<Comment>>, k: nat)
    requires |dbs| == |pages| && k < |pages| && (k > 0 ==> NextCursor(pages[k - 1], limit).Some?)
  {
    IsPage(dbs[k], filter, CursorBefore(pages, limit, k), EffectiveLimit(limit), pages[k])
  }

  /** What the protocol adds for one post: its tables evolve from page to page. */
  ghost predicate Evolving(dbs: seq<Db>, slug: Text) {
    forall k, l :: 0 <= k <= l < |dbs| ==> Evolves(slug, dbs[k], dbs[l])
  }

  ghost predicate Complete(pages: seq<seq<Comment>>, limit: nat) {
    pages != [] && NextCursor(pages[|pages| - 1], limit).None?
  }

  function LastId(page: seq<Comment>): int
    requires page != []
  {
    page[|page| - 1].id
  }

  function PageIds(page: seq<Comment>): seq<int> {
    seq(|page|, i requires 0 <= i < |page| => page[i].id)
  }

  function Ids(pages: seq<seq<Comment>>): seq<int> {
    if pages == [] then [] else Ids(pages[..|pages| - 1]) + PageIds(pages[|pages| - 1])
  }

  predicate Descending(ids: seq<int>) {
    forall i, j :: 0 <= i < j < |ids| ==> ids[j] < ids[i]
  }

  /** The filter selects the comment in every table that the walk reads. */
  ghost predicate SelectedThroughout(dbs: seq<Db>, filter: Filter, id: int) {
    forall k :: 0 <= k < |dbs| ==> id in dbs[k].comments && Selects(filter, 0, dbs[k].comments[id])
  }

  function IdsOfPost(db: Db, slug: Text): set<int> {
    set id | id in db.comments && db.comments[id].slug == slug
  }

  lemma WalkPrefix(dbs: seq<Db>, filter: Filter, limit: nat, pages: seq<seq<Comment>>, n: nat)
    requires Walk(dbs, filter, limit, pages) && n <= |pages|
    ensures Walk(dbs[..n], filter, limit, pages[..n])
  {
    var ds, ps := dbs[..n], pages[..n];
    assert (forall k :: 0 <= k < n ==> ds[k] == dbs[k]) && forall k :: 0 <= k < n ==> ps[k] == pages[k];
    forall k | 0 <= k < n - 1 ensures NextCursor(ps[k], limit).Some? {
      assert NextCursor(pages[k], limit).Some?;
    }
    forall k | 0 <= k < n ensures PageRead(ds, filter, limit, ps, k) {
      assert k > 0 ==> NextCursor(ps[k - 1], limit).Some?;
      assert PageRead(dbs, filter, limit, pages, k);
      assert CursorBefore(ps, limit, k) == CursorBefore(pages, limit, k);
    }
  }

  /** Where an unfinished walk goes on: at the positive id of the last comment returned. */
  lemma CursorIsLastId(dbs: seq<Db>, filter: Filter, limit: nat, pages: seq<seq<Comment>>, n: nat)
    requires Walk(dbs, filter, limit, pages) && 0 < n < |pages|
    ensures NextCursor(pages[n - 1], limit).Some?
    ensures pages[n - 1] != [] && CursorBefore(pages, limit, n) == pages[n - 1][|pages[n - 1]| - 1].id > 0
    ensures CursorBefore(pages, limit, n) in dbs[n - 1].comments
  {
    assert NextCursor(pages[n - 1], limit).Some?;
    assert PageRead(dbs, filter, limit, pages, n - 1);
  }

  /** A page read descends, lies below its cursor, and has positive ids. */
  lemma PageFacts(dbs: seq<Db>, filter: Filter, limit: nat, pages: seq<seq<Comment>>, n: nat)
    requires Walk(dbs, filter, limit, pages) && n < |pages|
    ensures forall k, l :: 0 <= k < l < |pages[n]| ==> pages[n][l].id < pages[n][k].id
    ensures n > 0 ==> NextCursor(pages[n - 1], limit).Some?
    ensures forall k :: 0 <= k < |pages[n]| ==> pages[n][k].id > 0 && (n > 0 ==> pages[n][k].id < CursorBefore(pages, limit, n))
  {
    if n > 0 { assert NextCursor(pages[n - 1], limit).Some?; }
    assert PageRead(dbs, filter, limit, pages, n);
    if n > 0 { CursorIsLastId(dbs, filter, limit, pages, n); }
    forall k | 0 <= k < |pages[n]| ensures pages[n][k].id > 0 && (n > 0 ==> pages[n][k].id < CursorBefore(pages, limit, n)) {
      assert Selects(filter, CursorBefore(pages, limit, n), pages[n][k]);
    }
  }

  /** One more page keeps the order: it descends and lies below the cursor. */
  lemma PageContinues(earlier: seq<int>, cursor: int, page: seq<Comment>)
    requires Descending(earlier) && (forall id :: id in earlier ==> cursor <= id)
    requires forall k, l :: 0 <= k < l < |page| ==> page[l].id < page[k].id
    requires earlier != [] ==> forall k :: 0 <= k < |page| ==> page[k].id < cursor
    ensures Descending(earlier + PageIds(page))
    ensures page != [] ==> forall id :: id in earlier + PageIds(page) ==> page[|page| - 1].id <= id
  {
    var ids := PageIds(page);
    forall i, j | 0 <= i < |earlier| && 0 <= j < |ids| ensures ids[j] < earlier[i] {
      assert earlier[i] in earlier;
    }
  }

  /** Ids strictly decrease across the whole walk, so nothing is repeated, whatever happens to
      the tables between two pages. */
  lemma {:induction false} WalkDescends(dbs: seq<Db>, filter: Filter, limit: nat, pages: seq<seq<Comment>>)
    requires Walk(dbs, filter, limit, pages)
    ensures Descending(Ids(pages))
    ensures pages != [] && pages[|pages| - 1] != [] ==> forall id :: id in Ids(pages) ==> LastId(pages[|pages| - 1]) <= id
  {
    if pages != [] {
      var n := |pages| - 1;
      WalkPrefix(dbs, filter, limit, pages, n);
      WalkDescends(dbs[..n], filter, limit, pages[..n]);
      PageFacts(dbs, filter, limit, pages, n);
      if n > 0 {
        CursorIsLastId(dbs, filter, limit, pages, n);
        assert pages[..n][n - 1] == pages[n - 1];
      }
      PageContinues(Ids(pages[..n]), CursorBefore(pages, limit, n), pages[n]);
    }
  }

  /** An id of the walk is the id of some comment on some page. */
  lemma {:induction false} IdsComeFromPages(pages: seq<seq<Comment>>, id: int)
    requires id in Ids(pages)
    ensures exists n, k :: 0 <= n < |pages| && 0 <= k < |pages[n]| && pages[n][k].id == id
  {
    var n := |pages| - 1;
    if id in Ids(pages[..n]) {
      IdsComeFromPages(pages[..n], id);
      var m, k :| 0 <= m < n && 0 <= k < |pages[..n][m]| && pages[..n][m][k].id == id;
      assert pages[m][k].id == id;
    } else {
      var k :| 0 <= k < |PageIds(pages[n])| && PageIds(pages[n])[k] == id;
      assert pages[n][k].id == id;
    }
  }

  /** Every comment on a page of one post's walk was committed on that post before the first
      page was read. */
  lemma {:induction false} PageIsOld(dbs: seq<Db>, slug: Text, limit: nat, pages: seq<seq<Comment>>, n: nat, k: nat)
    requires Walk(dbs, VisibleOf(slug), limit, pages) && Evolving(dbs, slug) && n < |pages| && k < |pages[n]|
    ensures pages[n][k].id in IdsOfPost(dbs[0], slug)
    decreases n
  {
    assert PageRead(dbs, VisibleOf(slug), limit, pages, n);
    if n > 0 {
      CursorIsLastId(dbs, VisibleOf(slug), limit, pages, n);
      PageIsOld(dbs, slug, limit, pages, n - 1, |pages[n - 1]| - 1);
      PageFacts(dbs, VisibleOf(slug), limit, pages, n);
      assert Evolves(slug, dbs[0], dbs[n]);
    }
  }

  /** A walk over one post's visible comments returns nothing that was committed after its
      first page was read. */
  lemma {:induction false} WalkIsOld(dbs: seq<Db>, slug: Text, limit: nat, pages: seq<seq<Comment>>)
    requires Walk(dbs, VisibleOf(slug), limit, pages) && Evolving(dbs, slug)
    ensures forall id :: id in Ids(pages) ==> dbs != [] && id in IdsOfPost(dbs[0], slug)
  {
    forall id | id in Ids(pages) ensures dbs != [] && id in IdsOfPost(dbs[0], slug) {
      IdsComeFromPages(pages, id);
      var n, k :| 0 <= n < |pages| && 0 <= k < |pages[n]| && pages[n][k].id == id;
      PageIsOld(dbs, slug, limit, pages, n, k);
    }
  }

  /** A selected comment below the cursor is on the page, or the page is full and above it. */
  lemma AskedFor(dbs: seq<Db>, filter: Filter, limit: nat, pages: seq<seq<Comment>>, id: int, n: nat)
    requires Walk(dbs, filter, limit, pages) && SelectedThroughout(dbs, filter, id) && n < |pages|
    requires n > 0 ==> NextCursor(pages[n - 1], limit).Some?
    requires n == 0 || id < CursorBefore(pages, limit, n)
    ensures id in Ids(pages[..n + 1]) || (|pages[n]| == EffectiveLimit(limit) && forall k :: 0 <= k < |pages[n]| ==> id < pages[n][k].id)
  {
    assert PageRead(dbs, filter, limit, pages, n);
    var page, c := pages[n], dbs[n].comments[id];
    assert Selects(filter, CursorBefore(pages, limit, n), c);
    if c in page {
      var k :| 0 <= k < |page| && page[k] == c;
      assert pages[..n + 1][..n] == pages[..n] && pages[..n + 1][n] == page;
      assert PageIds(page)[k] == id;
    }
  }

  /** A comment selected throughout is either already returned or still below the cursor. */
  lemma {:induction false} NothingIsSkipped(dbs: seq<Db>, filter: Filter, limit: nat, pages: seq<seq<Comment>>, id: int, n: nat)
    requires Walk(dbs, filter, limit, pages) && SelectedThroughout(dbs, filter, id) && n <= |pages|
    requires n > 0 ==> NextCursor(pages[n - 1], limit).Some?
    ensures id in Ids(pages[..n]) || n == 0 || id < CursorBefore(pages, limit, n)
  {
    if n > 0 {
      if n > 1 { assert NextCursor(pages[n - 2], limit).Some?; }
      NothingIsSkipped(dbs, filter, limit, pages, id, n - 1);
      assert pages[..n][..n - 1] == pages[..n - 1];
      if id !in Ids(pages[..n - 1]) { AskedFor(dbs, filter, limit, pages, id, n - 1); }
    }
  }

  /** A completed walk returns each comment that its filter selected throughout exactly once,
      for explicit limits and for the default one, over arbitrarily changing tables. */
  lemma {:induction false} SelectedCommentsAppearOnce(dbs: seq<Db>, filter: Filter, limit: nat, pages: seq<seq<Comment>>, id: int)
    requires Walk(dbs, filter, limit, pages) && Complete(pages, limit) && SelectedThroughout(dbs, filter, id)
    ensures multiset(Ids(pages))[id] == 1
  {
    var n := |pages| - 1;
    if n > 0 { assert NextCursor(pages[n - 1], limit).Some?; }
    NothingIsSkipped(dbs, filter, limit, pages, id, n);
    assert pages[..n + 1] == pages;
    if id !in Ids(pages[..n]) { AskedFor(dbs, filter, limit, pages, id, n); }
    WalkDescends(dbs, filter, limit, pages);
    assert id in Ids(pages);
    DescendingHasOne(Ids(pages), id);
  }

  lemma {:induction false} DescendingHasOne(ids: seq<int>, id: int)
    requires Descending(ids)
    ensures multiset(ids)[id] == if id in ids then 1 else 0
  {
    if ids != [] {
      var n := |ids| - 1;
      DescendingHasOne(ids[..n], id);
      assert ids == ids[..n] + [ids[n]];
      assert ids[n] !in ids[..n];
    }
  }

  /** Every page that supplied a cursor returned something. */
  lemma {:induction false} PagesReturnSomething(pages: seq<seq<Comment>>)
    requires forall k :: 0 <= k < |pages| ==> pages[k] != []
    ensures |Ids(pages)| >= |pages|
  {
    if pages != [] { PagesReturnSomething(pages[..|pages| - 1]); }
  }

  lemma {:induction false} IdsCountPages(dbs: seq<Db>, filter: Filter, limit: nat, pages: seq<seq<Comment>>)
    requires Walk(dbs, filter, limit, pages) && pages != []
    ensures |Ids(pages)| >= |pages| - 1 + |pages[|pages| - 1]|
  {
    var n := |pages| - 1;
    forall k | 0 <= k < n ensures pages[..n][k] != [] { assert NextCursor(pages[k], limit).Some?; }
    PagesReturnSomething(pages[..n]);
  }

  lemma {:induction false} DescendingIsSmall(ids: seq<int>, pool: set<int>)
    requires Descending(ids) && forall id :: id in ids ==> id in pool
    ensures |ids| <= |pool|
  {
    if ids != [] {
      var last := ids[|ids| - 1];
      assert last in ids;
      forall id | id in ids[..|ids| - 1] ensures id in pool - {last} {
        var k :| 0 <= k < |ids| - 1 && ids[k] == id;
        assert ids[|ids| - 1] < ids[k];
      }
      DescendingIsSmall(ids[..|ids| - 1], pool - {last});
    }
  }

  /** Termination over one post: a walk is at most one page longer than the comments that the
      post had at its start. */
  lemma WalkIsBounded(dbs: seq<Db>, slug: Text, limit: nat, pages: seq<seq<Comment>>)
    requires Walk(dbs, VisibleOf(slug), limit, pages) && Evolving(dbs, slug) && pages != []
    ensures |pages| <= |IdsOfPost(dbs[0], slug)| + 1
  {
    WalkDescends(dbs, VisibleOf(slug), limit, pages);
    WalkIsOld(dbs, slug, limit, pages);
    IdsCountPages(dbs, VisibleOf(slug), limit, pages);
    DescendingIsSmall(Ids(pages), IdsOfPost(dbs[0], slug));
  }

  /** Termination for any filter and any changes: the first id bounds the pages that follow. */
  lemma {:induction false} WalkEnds(dbs: seq<Db>, filter: Filter, limit: nat, pages: seq<seq<Comment>>)
    requires Walk(dbs, filter, limit, pages) && pages != []
    ensures |pages| <= 1 || |pages| <= pages[0][0].id + 1
  {
    if |pages| > 1 {
      assert NextCursor(pages[0], limit).Some?;
      WalkDescends(dbs, filter, limit, pages);
      IdsCountPages(dbs, filter, limit, pages);
      FirstId(pages);
      var last := Ids(pages)[|Ids(pages)| - 1];
      IdsComeFromPages(pages, last);
      var n, k :| 0 <= n < |pages| && 0 <= k < |pages[n]| && pages[n][k].id == last;
      PageFacts(dbs, filter, limit, pages, n);
      DescendsByOne(Ids(pages), |Ids(pages)| - 1);
    }
  }

  lemma {:induction false} FirstId(pages: seq<seq<Comment>>)
    requires pages != [] && pages[0] != []
    ensures Ids(pages) != [] && Ids(pages)[0] == pages[0][0].id
  {
    if |pages| > 1 {
      FirstId(pages[..|pages| - 1]);
    } else {
      assert Ids(pages[..0]) == [];
    }
  }

  lemma {:induction false} DescendsByOne(ids: seq<int>, k: nat)
    requires Descending(ids) && k < |ids|
    ensures ids[k] <= ids[0] - k
  {
    if k > 0 { DescendsByOne(ids, k - 1); }
  }

  lemma ConsistentIsKeyed(db: Db, nextComment: int, nextAudit: int)
    requires Consistent(db, nextComment, nextAudit)
    ensures Keyed(db)
  {
    forall id | id in db.comments ensures id > 0 && db.comments[id].id == id {
      assert CommentConsistent(db, nextComment, id);
    }
  }

  /** The tables that reads at the given points of a run find. */
  ghost function TablesAt(st: System, run: seq<Action>, points: seq<nat>): (dbs: seq<Db>)
    requires IsRun(st, run) && forall k :: 0 <= k < |points| ==> points[k] <= |run|
    ensures |dbs| == |points|
  {
    seq(|points|, k requires 0 <= k < |points| => TablesAfter(st, run, points[k]))
  }

  /** Pages read at ascending points of any protocol run form a walk over evolving tables: they
      may be interleaved with any creations, hides, unhides, synchronisations and rollbacks. */
  lemma {:induction false} PagesOfRunAreWalk(st: System, run: seq<Action>, points: seq<nat>, filter: Filter, limit: nat, pages: seq<seq<Comment>>)
    requires Start(st) && IsRun(st, run)
    requires forall k :: 0 <= k < |points| ==> points[k] <= |run|
    requires forall k, l :: 0 <= k < l < |points| ==> points[k] <= points[l]
    requires |pages| == |points| && forall k :: 0 <= k < |pages| - 1 ==> NextCursor(pages[k], limit).Some?
    requires forall k :: 0 <= k < |pages| ==> PageRead(TablesAt(st, run, points), filter, limit, pages, k)
    ensures Walk(TablesAt(st, run, points), filter, limit, pages)
    ensures forall slug :: Evolving(TablesAt(st, run, points), slug)
  {
    StartIsInv(st);
    var dbs := TablesAt(st, run, points);
    forall slug, k, l | 0 <= k <= l < |dbs| ensures Evolves(slug, dbs[k], dbs[l]) {
      ProtocolEvolves(st, run, points[k], points[l], slug);
    }
    forall k | 0 <= k < |dbs| ensures Keyed(dbs[k]) {
      RunPrefix(st, run, points[k]);
      RunKeepsInv(st, run[..points[k]]);
      var read := After(st, run[..points[k]]);
      ConsistentIsKeyed(read.db, read.nextComment, read.nextAudit);
    }
  }
}
