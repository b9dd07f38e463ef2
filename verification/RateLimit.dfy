/** The fixed-window limiter with bounded memory. */
module RateLimit {
  import opened Base
  import opened Arithmetic

  datatype VisitorState = VisitorState(windowStart: int, count: int)

  datatype Config = Config(limit: int, window: int, maxKeys: int)

  predicate Works(c: Config) {
    c.limit > 0 && c.window > 0 && c.maxKeys > 0
  }

  /** The windows that have not ended at `now`. */
  function Active<V>(c: Config, m: map<V, VisitorState>, now: int): map<V, VisitorState> {
    map v | v in m && now - m[v].windowStart < c.window :: m[v]
  }

  /** The decision of the limiter: sweep only when a new visitor meets a full table. */
  function Decide<V>(c: Config, m: map<V, VisitorState>, visitor: V, now: int): (map<V, VisitorState>, bool) {
    if !Works(c) then (m, false)
    else if visitor in m then
      var state := m[visitor];
      if now - state.windowStart >= c.window then (m[visitor := VisitorState(now, 1)], true)
      else if state.count >= c.limit then (m, false)
      else (m[visitor := state.(count := state.count + 1)], true)
    else
      var kept := if |m| >= c.maxKeys then Active(c, m, now) else m;
      if |kept| >= c.maxKeys then (kept, false) else (kept[visitor := VisitorState(now, 1)], true)
  }

  class AssignmentLimiter<V(==)> {
    const config: Config
    var user: map<V, VisitorState>

    constructor (limit: int, window: int, maxKeys: int)
      ensures config == Config(limit, window, maxKeys) && user == map[]
    {
      config := Config(limit, window, maxKeys);
      user := map[];
    }

    method Allow(visitor: V, now: int) returns (allowed: bool)
      modifies this
      ensures (user, allowed) == Decide(config, old(user), visitor, now)
    {
      if config.limit <= 0 || config.window <= 0 || config.maxKeys <= 0 {
        return false;
      }
      if visitor in user {
        var state := user[visitor];
        if now - state.windowStart >= config.window {
          user := user[visitor := VisitorState(now, 1)];
          return true;
        }
        if state.count >= config.limit {
          return false;
        }
        user := user[visitor := state.(count := state.count + 1)];
        return true;
      }
      if |user| >= config.maxKeys {
        RemoveExpired(now);
        if |user| >= config.maxKeys {
          return false;
        }
      }
      user := user[visitor := VisitorState(now, 1)];
      return true;
    }

    /** The sweep visits the entries in an arbitrary order and deletes the expired ones. */
    method RemoveExpired(now: int)
      modifies this
      ensures user == Active(config, old(user), now)
    {
      var unvisited := user.Keys;
      while unvisited != {}
        invariant unvisited <= user.Keys <= old(user).Keys
        invariant forall v :: v in user ==> user[v] == old(user)[v]
        invariant forall v :: v in old(user) && v !in unvisited ==> (v in user <==> now - old(user)[v].windowStart < config.window)
        decreases |unvisited|
      {
        var visitor := Pick(unvisited);
        if now - user[visitor].windowStart >= config.window {
          user := user - {visitor};
        }
        unvisited := unvisited - {visitor};
      }
    }

    method Size() returns (size: nat)
      ensures size == |user|
    {
      return |user|;
    }
  }

  /** What the table satisfies whatever the clock does. */
  ghost predicate Bounded<V>(c: Config, m: map<V, VisitorState>) {
    && |m| <= (if c.maxKeys > 0 then c.maxKeys else 0)
    && forall v :: v in m ==> 1 <= m[v].count <= c.limit
  }

  lemma ActiveIsSmaller<V>(c: Config, m: map<V, VisitorState>, now: int)
    ensures |Active(c, m, now)| <= |m|
    ensures forall v :: v in m && v !in Active(c, m, now) ==> |Active(c, m, now)| < |m|
  {
    var a := Active(c, m, now);
    assert a.Keys <= m.Keys;
    SubsetSize(a.Keys, m.Keys);
    forall v | v in m && v !in a ensures |a| < |m| {
      SubsetSize(a.Keys, m.Keys - {v});
    }
  }

  /** With any clock order, retained keys stay within `maxKeys` and counts in 1..limit. */
  lemma DecideKeepsBounds<V>(c: Config, m: map<V, VisitorState>, visitor: V, now: int)
    requires Bounded(c, m)
    ensures Bounded(c, Decide(c, m, visitor, now).0)
  {
    ActiveIsSmaller(c, m, now);
    var m' := Decide(c, m, visitor, now).0;
    assert visitor in m ==> m[visitor := VisitorState(now, 1)].Keys == m.Keys;
    assert visitor in m ==> m[visitor := m[visitor].(count := m[visitor].count + 1)].Keys == m.Keys;
  }

  /** The admission rule in terms of live windows only: an active visitor is admitted iff its
      count is below the limit, any other iff fewer than `maxKeys` windows are live. */
  lemma AdmissionRule<V>(c: Config, m: map<V, VisitorState>, visitor: V, now: int)
    requires Works(c) && Bounded(c, m)
    ensures var live := Active(c, m, now);
      Decide(c, m, visitor, now).1 <==> if visitor in live then live[visitor].count < c.limit else |live| < c.maxKeys
  {
    ActiveIsSmaller(c, m, now);
  }

  /** The ideal limiter forgets every entry at the instant its window ends. */
  function Ideal<V>(c: Config, m: map<V, VisitorState>, visitor: V, now: int): (map<V, VisitorState>, bool) {
    var live := Active(c, m, now);
    if !Works(c) then (live, false)
    else if visitor in live then
      if live[visitor].count < c.limit
      then (live[visitor := live[visitor].(count := live[visitor].count + 1)], true)
      else (live, false)
    else if |live| < c.maxKeys then (live[visitor := VisitorState(now, 1)], true)
    else (live, false)
  }

  datatype Request<V> = Request(visitor: V, now: int)

  predicate Nondecreasing<V>(calls: seq<Request<V>>) {
    forall i, j :: 0 <= i < j < |calls| ==> calls[i].now <= calls[j].now
  }

  /** The answers to a sequence of calls, first call first. */
  function Answers<V>(c: Config, m: map<V, VisitorState>, calls: seq<Request<V>>): seq<bool>
    decreases |calls|
  {
    if calls == [] then []
    else
      var (m', allowed) := Decide(c, m, calls[0].visitor, calls[0].now);
      [allowed] + Answers(c, m', calls[1..])
  }

  function IdealAnswers<V>(c: Config, m: map<V, VisitorState>, calls: seq<Request<V>>): seq<bool>
    decreases |calls|
  {
    if calls == [] then []
    else
      var (m', allowed) := Ideal(c, m, calls[0].visitor, calls[0].now);
      [allowed] + IdealAnswers(c, m', calls[1..])
  }

  /** Live windows at a later time depend only on the live windows now. */
  lemma LiveLater<V>(c: Config, m: map<V, VisitorState>, n: map<V, VisitorState>, now: int, later: int)
    requires Active(c, m, now) == Active(c, n, now) && now <= later
    ensures Active(c, m, later) == Active(c, n, later)
  {
    forall v | v in Active(c, m, later) ensures v in Active(c, n, later) && n[v] == m[v] {
      assert v in Active(c, m, now);
    }
    forall v | v in Active(c, n, later) ensures v in Active(c, m, later) {
      assert v in Active(c, n, now);
    }
  }

  lemma StepAgrees<V>(c: Config, m: map<V, VisitorState>, ideal: map<V, VisitorState>, visitor: V, now: int)
    requires Bounded(c, m) && Active(c, m, now) == Active(c, ideal, now)
    ensures Decide(c, m, visitor, now).1 == Ideal(c, ideal, visitor, now).1
    ensures Active(c, Decide(c, m, visitor, now).0, now) == Active(c, Ideal(c, ideal, visitor, now).0, now)
  {
    var live := Active(c, m, now);
    assert Active(c, live, now) == live;
    if Works(c) {
      AdmissionRule(c, m, visitor, now);
      ActiveOfUpdate(c, m, visitor, VisitorState(now, 1), now);
      ActiveOfUpdate(c, live, visitor, VisitorState(now, 1), now);
      if visitor in live {
        ActiveOfUpdate(c, m, visitor, live[visitor].(count := live[visitor].count + 1), now);
        ActiveOfUpdate(c, live, visitor, live[visitor].(count := live[visitor].count + 1), now);
      }
    }
  }

  lemma ActiveOfUpdate<V>(c: Config, m: map<V, VisitorState>, visitor: V, state: VisitorState, now: int)
    requires now - state.windowStart < c.window
    ensures Active(c, m[visitor := state], now) == Active(c, m, now)[visitor := state]
  {
  }

  /** Refinement: while time does not run backwards, the lazy sweep is unobservable. */
  lemma {:induction false} LazySweepIsUnobservable<V>(c: Config, m: map<V, VisitorState>, ideal: map<V, VisitorState>, calls: seq<Request<V>>)
    requires Bounded(c, m) && Nondecreasing(calls)
    requires calls != [] ==> Active(c, m, calls[0].now) == Active(c, ideal, calls[0].now)
    ensures Answers(c, m, calls) == IdealAnswers(c, ideal, calls)
    decreases |calls|
  {
    if calls != [] {
      var now := calls[0].now;
      StepAgrees(c, m, ideal, calls[0].visitor, now);
      DecideKeepsBounds(c, m, calls[0].visitor, now);
      var m', ideal' := Decide(c, m, calls[0].visitor, now).0, Ideal(c, ideal, calls[0].visitor, now).0;
      if |calls| > 1 {
        LiveLater(c, m', ideal', now, calls[1].now);
      }
      LazySweepIsUnobservable(c, m', ideal', calls[1..]);
    }
  }

  /** In particular from the empty table that the constructor makes. */
  lemma {:induction false} LimiterIsIdeal<V>(c: Config, calls: seq<Request<V>>)
    requires Nondecreasing(calls)
    ensures Answers(c, map[], calls) == IdealAnswers(c, map[], calls)
  {
    LazySweepIsUnobservable(c, map[], map[], calls);
  }

  /** How many calls of `visitor` with times in [from, to] are allowed. */
  function AllowedWithin<V(==)>(c: Config, m: map<V, VisitorState>, calls: seq<Request<V>>, visitor: V, from: int, to: int): nat
    decreases |calls|
  {
    if calls == [] then 0
    else
      var (m', allowed) := Decide(c, m, calls[0].visitor, calls[0].now);
      (if allowed && calls[0].visitor == visitor && from <= calls[0].now <= to then 1 else 0)
      + AllowedWithin(c, m', calls[1..], visitor, from, to)
  }

  /** The table as reached by calls not later than `now`. */
  ghost predicate StartedBy<V>(c: Config, m: map<V, VisitorState>, now: int) {
    Bounded(c, m) && forall v :: v in m ==> m[v].windowStart <= now
  }

  lemma DecideStartsBy<V>(c: Config, m: map<V, VisitorState>, visitor: V, before: int, now: int)
    requires StartedBy(c, m, before) && before <= now
    ensures StartedBy(c, Decide(c, m, visitor, now).0, now)
  {
    DecideKeepsBounds(c, m, visitor, now);
  }

  /** Calls still possible up to `to`: the rest of a live window, then whole windows. */
  function Budget<V>(c: Config, m: map<V, VisitorState>, visitor: V, now: int, to: int): int
    requires Works(c)
  {
    if to < now then 0
    else if visitor in Active(c, m, now) then c.limit - m[visitor].count + c.limit * ((to - m[visitor].windowStart) / c.window)
    else c.limit * ((to - now) / c.window + 1)
  }

  lemma BudgetIsNonnegative<V>(c: Config, m: map<V, VisitorState>, visitor: V, now: int, to: int)
    requires Works(c) && StartedBy(c, m, now)
    ensures Budget(c, m, visitor, now, to) >= 0
  {
    if to >= now {
      DivMonotone(0, to - now, c.window);
      MulMonotone(c.limit, 0, (to - now) / c.window + 1);
      if visitor in Active(c, m, now) {
        DivMonotone(0, to - m[visitor].windowStart, c.window);
        MulMonotone(c.limit, 0, (to - m[visitor].windowStart) / c.window);
      }
    }
  }

  /** Waiting never adds budget: a window that has ended gives way to at most one new one. */
  lemma BudgetShrinks<V>(c: Config, m: map<V, VisitorState>, visitor: V, now: int, later: int, to: int)
    requires Works(c) && StartedBy(c, m, now) && now <= later <= to
    ensures Budget(c, m, visitor, later, to) <= Budget(c, m, visitor, now, to)
  {
    if visitor in Active(c, m, now) && visitor !in Active(c, m, later) {
      var start := m[visitor].windowStart;
      DivShift(to - later, c.window);
      DivMonotone(to - later + c.window, to - start, c.window);
      MulMonotone(c.limit, (to - later) / c.window + 1, (to - start) / c.window);
    } else if visitor !in Active(c, m, now) {
      DivMonotone(to - later, to - now, c.window);
      MulMonotone(c.limit, (to - later) / c.window + 1, (to - now) / c.window + 1);
    }
  }

  /** One decision spends budget exactly when it allows the visitor. */
  lemma BudgetSpent<V>(c: Config, m: map<V, VisitorState>, caller: V, visitor: V, now: int, to: int)
    requires Works(c) && StartedBy(c, m, now) && now <= to
    ensures var (m', allowed) := Decide(c, m, caller, now);
      Budget(c, m', visitor, now, to) + (if allowed && caller == visitor then 1 else 0) <= Budget(c, m, visitor, now, to)
  {
  }

  lemma {:induction false} AllowedIsBudgeted<V>(c: Config, m: map<V, VisitorState>, calls: seq<Request<V>>, visitor: V, now: int, from: int, to: int)
    requires Works(c) && StartedBy(c, m, now) && Nondecreasing(calls)
    requires calls != [] ==> now <= calls[0].now
    ensures AllowedWithin(c, m, calls, visitor, from, to) <= Budget(c, m, visitor, now, to)
    decreases |calls|
  {
    BudgetIsNonnegative(c, m, visitor, now, to);
    if calls != [] {
      var (m', allowed) := Decide(c, m, calls[0].visitor, calls[0].now);
      var later := calls[0].now;
      DecideStartsBy(c, m, calls[0].visitor, now, later);
      AllowedIsBudgeted(c, m', calls[1..], visitor, later, from, to);
      if later <= to {
        BudgetShrinks(c, m, visitor, now, later, to);
        BudgetSpent(c, m, calls[0].visitor, visitor, later, to);
      }
    }
  }

  function Ceil(a: int, d: int): int
    requires d > 0
  {
    (a + d - 1) / d
  }

  /** Burst bound: over any run with nondecreasing times, evictions and re-admissions
      included, a visitor is allowed at most limit * (ceil((to - from) / window) + 1) calls
      with times in [from, to]. */
  lemma {:induction false} BurstBound<V>(c: Config, m: map<V, VisitorState>, calls: seq<Request<V>>, visitor: V, from: int, to: int)
    requires Works(c) && Nondecreasing(calls) && from <= to
    requires calls != [] ==> StartedBy(c, m, calls[0].now)
    ensures AllowedWithin(c, m, calls, visitor, from, to) <= c.limit * ((to - from + c.window - 1) / c.window + 1)
    decreases |calls|
  {
    DivMonotone(0, to - from + c.window - 1, c.window);
    MulMonotone(c.limit, 0, Ceil(to - from, c.window) + 1);
    if calls != [] {
      var now := calls[0].now;
      if now < from {
        var m' := Decide(c, m, calls[0].visitor, now).0;
        DecideStartsBy(c, m, calls[0].visitor, now, now);
        assert |calls| > 1 ==> StartedBy(c, m', calls[1].now);
        BurstBound(c, m', calls[1..], visitor, from, to);
      } else {
        AllowedIsBudgeted(c, m, calls, visitor, now, from, to);
        FirstBudget(c, m, visitor, now, from, to);
      }
    }
  }

  lemma FirstBudget<V>(c: Config, m: map<V, VisitorState>, visitor: V, now: int, from: int, to: int)
    requires Works(c) && StartedBy(c, m, now) && from <= now && from <= to
    ensures Budget(c, m, visitor, now, to) <= c.limit * (Ceil(to - from, c.window) + 1)
  {
    var whole := Ceil(to - from, c.window);
    DivMonotone(0, to - from + c.window - 1, c.window);
    MulMonotone(c.limit, 0, whole + 1);
    assert c.limit * (whole + 1) == c.limit * whole + c.limit;
    if visitor in Active(c, m, now) {
      DivMonotone(to - m[visitor].windowStart, to - from + c.window - 1, c.window);
      MulMonotone(c.limit, (to - m[visitor].windowStart) / c.window, whole);
    } else {
      DivMonotone(to - now, to - from + c.window - 1, c.window);
      MulMonotone(c.limit, (to - now) / c.window + 1, whole + 1);
    }
  }

  /** Hence at most 2 * limit calls in any span shorter than a window. */
  lemma {:induction false} ShortBurst<V>(c: Config, calls: seq<Request<V>>, visitor: V, from: int, to: int)
    requires Works(c) && Nondecreasing(calls) && from <= to < from + c.window
    ensures AllowedWithin(c, map[], calls, visitor, from, to) <= 2 * c.limit
  {
    BurstBound(c, map[], calls, visitor, from, to);
    DivMonotone(to - from + c.window - 1, 2 * c.window - 2, c.window);
    QuotientIsUnique(2 * c.window - 1, c.window, 1, c.window - 1);
    DivMonotone(2 * c.window - 2, 2 * c.window - 1, c.window);
    MulMonotone(c.limit, Ceil(to - from, c.window) + 1, 2);
  }

  function TableAfter<V>(c: Config, m: map<V, VisitorState>, calls: seq<Request<V>>): map<V, VisitorState>
    decreases |calls|
  {
    if calls == [] then m else TableAfter(c, Decide(c, m, calls[0].visitor, calls[0].now).0, calls[1..])
  }

  /** Memory bound over every run and any clock order, invalid configurations included. */
  lemma {:induction false} MemoryIsBounded<V>(c: Config, m: map<V, VisitorState>, calls: seq<Request<V>>)
    requires Bounded(c, m)
    ensures Bounded(c, TableAfter(c, m, calls))
    decreases |calls|
  {
    if calls != [] {
      DecideKeepsBounds(c, m, calls[0].visitor, calls[0].now);
      MemoryIsBounded(c, Decide(c, m, calls[0].visitor, calls[0].now).0, calls[1..]);
    }
  }
}
