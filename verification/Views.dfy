/** Rolling-window view deduplication and its cached counter. */
module Views {
  import opened Arithmetic
  import opened Base
  import opened Texts

  type ViewKey = (Text, VisitorHash)

  /** `post_view_visitors` and `post_stats`. */
  datatype ViewTables = ViewTables(lastCountedAt: map<ViewKey, int>, viewCount: map<Text, nat>)

  datatype ViewError = ForeignKeyViolation

  /** One execution of the statement; `registered` says whether its slug is in the registry. */
  datatype Visit = Visit(slug: Text, visitor: VisitorHash, at: int, registered: bool)

  /** The deduplication decision: no row yet, or a row not newer than the cutoff. */
  predicate Counts(t: ViewTables, v: Visit, window: int) {
    (v.slug, v.visitor) !in t.lastCountedAt || t.lastCountedAt[(v.slug, v.visitor)] <= v.at - window
  }

  /** Rows that the statement would insert must refer to a registered item. */
  predicate Rejected(t: ViewTables, v: Visit, window: int) {
    !v.registered && Counts(t, v, window) && ((v.slug, v.visitor) !in t.lastCountedAt || v.slug !in t.viewCount)
  }

  function Record(t: ViewTables, v: Visit, window: int): (ViewTables, Result<bool, ViewError>) {
    if Rejected(t, v, window) then (t, Err(ForeignKeyViolation))
    else if !Counts(t, v, window) then (t, Ok(false))
    else
      (ViewTables(t.lastCountedAt[(v.slug, v.visitor) := v.at],
                  t.viewCount[v.slug := if v.slug in t.viewCount then t.viewCount[v.slug] + 1 else 1]),
       Ok(true))
  }

  class ViewStore {
    var lastCountedAt: map<ViewKey, int>
    var viewCount: map<Text, nat>

    ghost function Tables(): ViewTables reads this {
      ViewTables(lastCountedAt, viewCount)
    }

    constructor ()
      ensures Tables() == ViewTables(map[], map[])
    {
      lastCountedAt, viewCount := map[], map[];
    }

    /** One statement with two data-modifying parts: the counter moves only when the
        visitor row was inserted or updated. A foreign-key failure undoes both. */
    method RecordView(slug: Text, visitor: VisitorHash, countedAt: int, window: int, registered: bool)
      returns (result: Result<bool, ViewError>)
      modifies this
      ensures (Tables(), result) == Record(old(Tables()), Visit(slug, visitor, countedAt, registered), window)
      ensures var key, rows := (slug, visitor), old(lastCountedAt);
        var inserts, due := key !in rows, key !in rows || countedAt - rows[key] >= window;
        && (result.Err? <==> !registered && due && (inserts || slug !in old(viewCount)))
        && (result.Ok? ==> (result.value <==> due))
        && (result == Ok(true) ==>
              && lastCountedAt == rows[key := countedAt]
              && viewCount == old(viewCount)[slug := (if slug in old(viewCount) then old(viewCount)[slug] else 0) + 1])
        && (result != Ok(true) ==> lastCountedAt == rows && viewCount == old(viewCount))
    {
      var cutoff := countedAt - window;
      var key := (slug, visitor);
      var inserts := key !in lastCountedAt;
      var counted := inserts || lastCountedAt[key] <= cutoff;
      if counted {
        if !registered && (inserts || slug !in viewCount) {
          return Err(ForeignKeyViolation);
        }
        lastCountedAt := lastCountedAt[key := countedAt];
        viewCount := viewCount[slug := if slug in viewCount then viewCount[slug] + 1 else 1];
      }
      return Ok(counted);
    }

    method Count(slug: Text) returns (count: nat)
      ensures count == CountOf(Tables(), slug)
      ensures slug in viewCount ==> count == viewCount[slug]
      ensures slug !in viewCount ==> count == 0
    {
      return if slug in viewCount then viewCount[slug] else 0;
    }
  }

  function CountOf(t: ViewTables, slug: Text): nat {
    if slug in t.viewCount then t.viewCount[slug] else 0
  }

  /** The tables after a run of statements from empty tables, in the order they executed. */
  function After(visits: seq<Visit>, window: int): ViewTables {
    if visits == [] then ViewTables(map[], map[])
    else Record(After(visits[..|visits| - 1], window), visits[|visits| - 1], window).0
  }

  /** Statement `n` of the run returned true. */
  predicate Counted(visits: seq<Visit>, window: int, n: nat)
    requires n < |visits|
  {
    Record(After(visits[..n], window), visits[n], window).1 == Ok(true)
  }

  function CountedOf(visits: seq<Visit>, window: int, slug: Text): set<int> {
    set n | 0 <= n < |visits| && Counted(visits, window, n) && visits[n].slug == slug
  }

  function CountedBy(visits: seq<Visit>, window: int, key: ViewKey): set<int> {
    set n | 0 <= n < |visits| && Counted(visits, window, n) && (visits[n].slug, visits[n].visitor) == key
  }

  /** What a statement answered does not depend on later statements. */
  lemma CountedPrefix(visits: seq<Visit>, window: int, k: nat)
    requires k < |visits| - 1
    ensures var before := visits[..|visits| - 1];
      before[k] == visits[k] && (Counted(before, window, k) <==> Counted(visits, window, k))
  {
    assert visits[..|visits| - 1][..k] == visits[..k];
  }

  lemma CountedOfExtends(visits: seq<Visit>, window: int, slug: Text)
    requires visits != []
    ensures var n := |visits| - 1;
      CountedOf(visits, window, slug) ==
      CountedOf(visits[..n], window, slug) + (if Counted(visits, window, n) && visits[n].slug == slug then {n} else {})
  {
    forall k | 0 <= k < |visits| - 1 ensures k in CountedOf(visits, window, slug) <==> k in CountedOf(visits[..|visits| - 1], window, slug) {
      CountedPrefix(visits, window, k);
    }
  }

  lemma CountedByExtends(visits: seq<Visit>, window: int, key: ViewKey)
    requires visits != []
    ensures var n := |visits| - 1;
      CountedBy(visits, window, key) ==
      CountedBy(visits[..n], window, key) + (if Counted(visits, window, n) && (visits[n].slug, visits[n].visitor) == key then {n} else {})
  {
    forall k | 0 <= k < |visits| - 1 ensures k in CountedBy(visits, window, key) <==> k in CountedBy(visits[..|visits| - 1], window, key) {
      CountedPrefix(visits, window, k);
    }
  }

  /** Conservation, for any interleaving and any clock order: the cached counter of a post is
      the number of statements that returned true for it. */
  lemma {:induction false} CounterIsConserved(visits: seq<Visit>, window: int, slug: Text)
    ensures CountOf(After(visits, window), slug) == |CountedOf(visits, window, slug)|
  {
    if visits != [] {
      CountedOfExtends(visits, window, slug);
      CounterIsConserved(visits[..|visits| - 1], window, slug);
    } else {
      assert CountedOf(visits, window, slug) == {};
    }
  }

  /** A post has a stats row iff some visitor row of that post exists. */
  lemma {:induction false} StatsRowIffVisitorRow(visits: seq<Visit>, window: int, slug: Text)
    ensures var t := After(visits, window);
      slug in t.viewCount <==> exists visitor :: (slug, visitor) in t.lastCountedAt
  {
    if visits != [] {
      var n := |visits| - 1;
      StatsRowIffVisitorRow(visits[..n], window, slug);
      var t, t' := After(visits[..n], window), After(visits, window);
      if visits[n].slug == slug && Counted(visits, window, n) {
        assert (slug, visits[n].visitor) in t'.lastCountedAt;
      } else {
        assert forall visitor :: (slug, visitor) in t'.lastCountedAt <==> (slug, visitor) in t.lastCountedAt;
      }
    }
  }

  predicate Apart(a: int, b: int, window: int) {
    a - b >= window || b - a >= window
  }

  /** Any two of the visits are at least a window apart. */
  predicate Spaced(visits: seq<Visit>, window: int, chosen: set<int>) {
    && (forall i :: i in chosen ==> 0 <= i < |visits|)
    && forall i, j :: i in chosen && j in chosen && i != j ==> Apart(visits[i].at, visits[j].at, window)
  }

  /** What one statement does to one visitor's row. */
  lemma {:induction false} RowStep(visits: seq<Visit>, window: int, key: ViewKey)
    requires visits != []
    ensures var n := |visits| - 1;
      var t, t' := After(visits[..n], window).lastCountedAt, After(visits, window).lastCountedAt;
      var mine := (visits[n].slug, visits[n].visitor) == key;
      && Row(t', key) == (if Counted(visits, window, n) && mine then Some(visits[n].at) else Row(t, key))
      && (Counted(visits, window, n) && mine && key in t ==> t[key] <= visits[n].at - window)
      && (!Counted(visits, window, n) && mine && visits[n].registered ==> key in t && t[key] > visits[n].at - window)
  {
  }

  function Row(t: map<ViewKey, int>, key: ViewKey): Option<int> {
    if key in t then Some(t[key]) else None
  }

  /** `last` is the latest time among the chosen visits, or absent when there are none. */
  ghost predicate LatestTime(visits: seq<Visit>, chosen: set<int>, last: Option<int>) {
    && (forall i :: i in chosen ==> 0 <= i < |visits|)
    && if last.Some?
       then (forall i :: i in chosen ==> visits[i].at <= last.value) && exists i :: i in chosen && visits[i].at == last.value
       else chosen == {}
  }

  lemma SpacedStep(visits: seq<Visit>, window: int, before: set<int>, last: Option<int>)
    requires window > 0 && visits != [] && Spaced(visits[..|visits| - 1], window, before)
    requires LatestTime(visits[..|visits| - 1], before, last)
    ensures Spaced(visits, window, before) && LatestTime(visits, before, last)
    ensures var n := |visits| - 1;
      (last.Some? ==> last.value <= visits[n].at - window) ==>
        Spaced(visits, window, before + {n}) && LatestTime(visits, before + {n}, Some(visits[n].at))
  {
  }

  /** For any clock order: the visitor row holds the latest counted time, and the counted
      times of one visitor are pairwise at least a window apart. */
  lemma {:induction false} CountedAreSpaced(visits: seq<Visit>, window: int, key: ViewKey)
    requires window > 0
    ensures Spaced(visits, window, CountedBy(visits, window, key))
    ensures LatestTime(visits, CountedBy(visits, window, key), Row(After(visits, window).lastCountedAt, key))
  {
    if visits != [] {
      var n := |visits| - 1;
      CountedByExtends(visits, window, key);
      CountedAreSpaced(visits[..n], window, key);
      RowStep(visits, window, key);
      SpacedStep(visits, window, CountedBy(visits[..n], window, key), Row(After(visits[..n], window).lastCountedAt, key));
    }
  }

  /** A latest one of the chosen visits, all among the first `n`, if there is one. */
  lemma {:induction false} LatestOf(visits: seq<Visit>, chosen: set<int>, n: nat) returns (latest: Option<int>)
    requires n <= |visits| && forall i :: i in chosen ==> 0 <= i < n
    ensures if latest.None? then chosen == {}
            else latest.value in chosen && forall i :: i in chosen ==> visits[i].at <= visits[latest.value].at
  {
    if n == 0 {
      forall i ensures i !in chosen {}
      return None;
    }
    var rest := chosen - {n - 1};
    var earlier := LatestOf(visits, rest, n - 1);
    latest := if n - 1 in chosen && (earlier.None? || visits[n - 1].at > visits[earlier.value].at) then Some(n - 1) else earlier;
    forall i | i in chosen ensures latest.Some? && visits[i].at <= visits[latest.value].at {
      assert i == n - 1 || i in rest;
    }
  }

  /** A spaced set of visits inside [from, to] has at most floor((to - from) / window) + 1. */
  lemma {:induction false} SpacedIsSparse(visits: seq<Visit>, window: int, chosen: set<int>, from: int, to: int)
    requires window > 0 && from <= to && Spaced(visits, window, chosen)
    requires forall i :: i in chosen ==> from <= visits[i].at <= to
    ensures |chosen| <= (to - from) / window + 1
    decreases |chosen|
  {
    var latest := LatestOf(visits, chosen, |visits|);
    if latest.Some? {
      var rest := chosen - {latest.value};
      assert |chosen| == |rest| + 1;
      EarlierByAWindow(visits, window, chosen, latest.value, to);
      var earlier := LatestOf(visits, rest, |visits|);
      if earlier.Some? {
        SpacedIsSparse(visits, window, rest, from, to - window);
        DivShift(to - window - from, window);
      }
    }
    DivMonotone(0, to - from, window);
  }

  /** All but the latest of a spaced set come at least a window before it. */
  lemma EarlierByAWindow(visits: seq<Visit>, window: int, chosen: set<int>, latest: int, to: int)
    requires window > 0 && Spaced(visits, window, chosen) && latest in chosen && visits[latest].at <= to
    requires forall i :: i in chosen ==> visits[i].at <= visits[latest].at
    ensures Spaced(visits, window, chosen - {latest})
    ensures forall i :: i in chosen - {latest} ==> visits[i].at <= to - window
  {
  }

  /** Rate bound: one visitor's views of a post counted in [from, to], for any clock order. */
  lemma ViewsAreBounded(visits: seq<Visit>, window: int, key: ViewKey, from: int, to: int)
    requires window > 0 && from <= to
    ensures |set n | n in CountedBy(visits, window, key) && from <= visits[n].at <= to| <= (to - from) / window + 1
  {
    CountedAreSpaced(visits, window, key);
    SpacedIsSparse(visits, window, (set n | n in CountedBy(visits, window, key) && from <= visits[n].at <= to), from, to);
  }

  /** The visits of one visitor to one registered post, in nondecreasing time order. */
  ghost predicate InOrder(visits: seq<Visit>, key: ViewKey) {
    && (forall i :: 0 <= i < |visits| && (visits[i].slug, visits[i].visitor) == key ==> visits[i].registered)
    && (forall i, j :: 0 <= i < j < |visits| && (visits[i].slug, visits[i].visitor) == key == (visits[j].slug, visits[j].visitor)
          ==> visits[i].at <= visits[j].at)
  }

  ghost predicate Of(visits: seq<Visit>, key: ViewKey, chosen: set<int>) {
    forall i :: i in chosen ==> 0 <= i < |visits| && (visits[i].slug, visits[i].visitor) == key
  }

  /** Some chosen visit is not earlier than `last`. */
  ghost predicate EndsAfter(visits: seq<Visit>, chosen: set<int>, last: Option<int>) {
    last.Some? && exists i :: i in chosen && 0 <= i < |visits| && visits[i].at >= last.value
  }

  lemma FitsBeforeLast(visits: seq<Visit>, window: int, key: ViewKey, chosen: set<int>)
    requires visits != [] && InOrder(visits, key) && Of(visits, key, chosen) && Spaced(visits, window, chosen)
    ensures var n := |visits| - 1;
      InOrder(visits[..n], key) && Of(visits[..n], key, chosen - {n}) && Spaced(visits[..n], window, chosen - {n})
  {
    var n := |visits| - 1;
    forall i | i in chosen - {n} ensures 0 <= i < n && visits[..n][i] == visits[i] {}
  }

  /** Greedy stays ahead: no spaced choice is larger, and one of equal size ends no earlier. */
  lemma {:induction false} GreedyStaysAhead(visits: seq<Visit>, window: int, key: ViewKey, chosen: set<int>)
    requires window > 0 && InOrder(visits, key) && Of(visits, key, chosen) && Spaced(visits, window, chosen)
    ensures |chosen| <= |CountedBy(visits, window, key)|
    ensures |chosen| == |CountedBy(visits, window, key)| > 0 ==>
      EndsAfter(visits, chosen, Row(After(visits, window).lastCountedAt, key))
  {
    if visits != [] {
      var n := |visits| - 1;
      FitsBeforeLast(visits, window, key, chosen);
      GreedyStaysAhead(visits[..n], window, key, chosen - {n});
      var counted := LastVisit(visits, window, key);
      GreedyStep(visits, window, chosen, CountedBy(visits[..n], window, key), Row(After(visits[..n], window).lastCountedAt, key), counted);
    } else {
      forall i ensures i !in chosen {}
      assert chosen == {};
    }
  }

  /** The last visit is counted for `key`, or it is someone else's, or it follows a counted
      visit too closely. */
  lemma LastVisit(visits: seq<Visit>, window: int, key: ViewKey) returns (counted: bool)
    requires window > 0 && visits != [] && InOrder(visits, key)
    ensures var n := |visits| - 1;
      var before, last := CountedBy(visits[..n], window, key), Row(After(visits[..n], window).lastCountedAt, key);
      && LatestTime(visits[..n], before, last)
      && CountedBy(visits, window, key) == before + (if counted then {n} else {})
      && Row(After(visits, window).lastCountedAt, key) == (if counted then Some(visits[n].at) else last)
      && ((visits[n].slug, visits[n].visitor) == key && !counted ==>
            last.Some? && visits[n].at - window < last.value <= visits[n].at)
  {
    var n := |visits| - 1;
    CountedByExtends(visits, window, key);
    RowStep(visits, window, key);
    CountedAreSpaced(visits[..n], window, key);
    counted := Counted(visits, window, n) && (visits[n].slug, visits[n].visitor) == key;
    if (visits[n].slug, visits[n].visitor) == key && !counted {
      var i :| i in CountedBy(visits[..n], window, key) && visits[..n][i].at == After(visits[..n], window).lastCountedAt[key];
      assert visits[..n][i] == visits[i];
    }
  }

  lemma GreedyStep(visits: seq<Visit>, window: int, chosen: set<int>, before: set<int>, last: Option<int>, counted: bool)
    requires window > 0 && visits != [] && Spaced(visits, window, chosen) && LatestTime(visits[..|visits| - 1], before, last)
    requires var n := |visits| - 1;
      && |chosen - {n}| <= |before|
      && (|chosen - {n}| == |before| > 0 ==> EndsAfter(visits[..n], chosen - {n}, last))
      && (forall i :: i in chosen && i < n && n in chosen ==> visits[i].at <= visits[n].at)
      && (n in chosen && !counted ==> last.Some? && visits[n].at - window < last.value <= visits[n].at)
    ensures var n := |visits| - 1;
      var after, last' := before + (if counted then {n} else {}), if counted then Some(visits[n].at) else last;
      |chosen| <= |after| && (|chosen| == |after| > 0 ==> EndsAfter(visits, chosen, last'))
  {
  }

  /** Greedy optimality: for one post and visitor with calls in time order, the views that
      are counted form a largest set of calls pairwise at least a window apart. */
  lemma CountingIsOptimal(visits: seq<Visit>, window: int, key: ViewKey)
    requires window > 0 && InOrder(visits, key)
    ensures Of(visits, key, CountedBy(visits, window, key)) && Spaced(visits, window, CountedBy(visits, window, key))
    ensures forall chosen :: Of(visits, key, chosen) && Spaced(visits, window, chosen) ==> |chosen| <= |CountedBy(visits, window, key)|
  {
    CountedAreSpaced(visits, window, key);
    forall chosen | Of(visits, key, chosen) && Spaced(visits, window, chosen)
      ensures |chosen| <= |CountedBy(visits, window, key)|
    {
      GreedyStaysAhead(visits, window, key, chosen);
    }
  }
}
