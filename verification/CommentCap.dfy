/** The visible-comment cap and the audit trail over whole runs of the protocol. */
module CommentCap {
  import opened Base
  import opened Texts
  import opened Database
  import opened Protocol
  import opened ProtocolInvariant
  import opened Refinement

  /** The session has passed its count and will make one more comment of `slug` visible. */
  predicate AddsVisible(s: Session, slug: Text) {
    match s
    case Creating(input, _, pc, _) => input.slug == slug && (pc == Counted || pc.Inserted?)
    case Moderating(_, desired, _, _, pc, _) =>
      desired == Visible && (pc.MayUpdate? || pc.Updated? || pc.Audited?) && pc.slug == slug
    case _ => false
  }

  ghost function Pending(st: System, slug: Text): set<int> {
    set i | 0 <= i < |st.sessions| && AddsVisible(st.sessions[i], slug)
  }

  predicate CapAtMost(call: Call, k: int) {
    match call
    case Create(_, cap) => cap <= k
    case SetVisibility(_, _, cap, _) => cap <= k
    case Sync(_) => true
  }

  ghost predicate CapsAtMost(st: System, k: int) {
    forall i :: 0 <= i < |st.sessions| ==> CapAtMost(CallOf(st.sessions[i]), k)
  }

  /** The post's lock admits one pending addition at a time, and only below the caller's cap. */
  lemma PendingIsSingle(st: System, slug: Text, k: int)
    requires Inv(st) && CapsAtMost(st, k)
    ensures |Pending(st, slug)| <= 1
    ensures Pending(st, slug) != {} ==> VisibleCount(st.db, slug) < k
  {
    var pending := Pending(st, slug);
    if pending != {} {
      var i :| i in pending;
      assert SessionOk(st, st.sessions[i]) && CapAtMost(CallOf(st.sessions[i]), k);
      assert PostLock(st.lockKey(slug)) in Held(st.sessions[i]);
      forall j | j in pending ensures j == i {
        assert SessionOk(st, st.sessions[j]);
        assert PostLock(st.lockKey(slug)) in Held(st.sessions[j]);
        if j != i {
          assert Apart(st.sessions[i], st.sessions[j]);
          assert Conflicts(PostLock(st.lockKey(slug)), PostLock(st.lockKey(slug)));
        }
      }
      assert pending == {i};
    }
  }

  /** A commit adds at most the one visible comment its session had pending. */
  lemma CommitAddsPending(st: System, s: Session, slug: Text)
    requires SessionOk(st, s)
    ensures VisibleCount(Committed(st.db, s), slug) <= VisibleCount(st.db, slug) + if AddsVisible(s, slug) then 1 else 0
  {
    if HasInserted(s) {
      OneRowMoreVisible(st.db, Committed(st.db, s), slug, s.createPc.row.id);
    } else if s.Moderating? && s.moderatePc.Audited? {
      OneRowMoreVisible(st.db, Committed(st.db, s), slug, s.id);
    }
  }

  /** Writing one row adds at most that row to the visible ones of its own post, and only if
      it is visible now. */
  lemma OneRowMoreVisible(db: Db, db': Db, slug: Text, id: int)
    requires id in db'.comments && db'.comments == db.comments[id := db'.comments[id]]
    ensures VisibleCount(db', slug) <= VisibleCount(db, slug) +
            if db'.comments[id].slug == slug && db'.comments[id].status == Visible then 1 else 0
  {
    var row := db'.comments[id];
    var extra := if row.slug == slug && row.status == Visible then {id} else {};
    assert VisibleIds(db', slug) <= VisibleIds(db, slug) + extra;
    SubsetSize(VisibleIds(db', slug), VisibleIds(db, slug) + extra);
  }

  /** Safety over whole runs: if no call's cap exceeds `k` and every post starts within `k`,
      then committed plus pending visible comments never exceed `k` on any post, however
      creations and unhides race and whichever posts share a lock key. */
  lemma {:induction false} CapHolds(st: System, run: seq<Action>, k: int)
    requires Inv(st) && IsRun(st, run) && CapsAtMost(st, k)
    requires forall slug :: VisibleCount(st.db, slug) <= k
    ensures CapsAtMost(After(st, run), k)
    ensures forall slug :: VisibleCount(After(st, run).db, slug) + |Pending(After(st, run), slug)| <= k
  {
    RunKeepsInv(st, run);
    var st' := After(st, run);
    if run != [] {
      var prefix, a := run[..|run| - 1], run[|run| - 1];
      RunKeepsInv(st, prefix);
      CapHolds(st, prefix, k);
      var mid := After(st, prefix);
      CapStep(mid, a, k);
    }
    forall slug ensures VisibleCount(st'.db, slug) + |Pending(st', slug)| <= k {
      PendingIsSingle(st', slug, k);
      assert Pending(st', slug) == {} ==> |Pending(st', slug)| == 0;
    }
  }

  /** The same for one post, with the visible comments written out. */
  lemma {:induction false} CapForPost(st: System, run: seq<Action>, k: int, slug: Text)
    requires Inv(st) && IsRun(st, run) && CapsAtMost(st, k)
    requires forall slug :: VisibleCount(st.db, slug) <= k
    ensures var db := After(st, run).db;
      |set id | id in db.comments && db.comments[id].slug == slug && db.comments[id].status == Visible| <= k
  {
    CapHolds(st, run, k);
    VisibleCountMeaning(After(st, run).db, slug);
    assert VisibleCount(After(st, run).db, slug) + |Pending(After(st, run), slug)| <= k;
  }

  lemma CapStep(st: System, a: Action, k: int)
    requires Inv(st) && Enabled(st, a) && CapsAtMost(st, k)
    requires forall slug :: VisibleCount(st.db, slug) + |Pending(st, slug)| <= k
    ensures CapsAtMost(Next(st, a), k)
    ensures forall slug :: VisibleCount(Next(st, a).db, slug) <= k
  {
    StepKeepsCall(st, a);
    forall i | 0 <= i < |st.sessions| ensures CapAtMost(CallOf(Next(st, a).sessions[i]), k) {
      assert CapAtMost(CallOf(st.sessions[i]), k);
    }
    forall slug ensures VisibleCount(Next(st, a).db, slug) <= k {
      CountAfterStep(st, a, slug, k);
    }
  }

  lemma CountAfterStep(st: System, a: Action, slug: Text, k: int)
    requires Inv(st) && Enabled(st, a) && CapsAtMost(st, k) && VisibleCount(st.db, slug) + |Pending(st, slug)| <= k
    ensures VisibleCount(Next(st, a).db, slug) <= k
  {
    var s := st.sessions[a.session];
    assert SessionOk(st, s);
    if a.Execute? {
      CommitAddsPending(st, s, slug);
      PendingIsSingle(st, slug, k);
      assert AddsVisible(s, slug) ==> a.session in Pending(st, slug);
    }
  }

  /** In every reachable state each comment's committed events, replayed from "visible",
      give its status; their ids ascend; and `hiddenAt` is set exactly when it is hidden. */
  lemma {:induction false} AuditTrailReplays(st: System, run: seq<Action>, id: int)
    requires Start(st) && IsRun(st, run) && id in After(st, run).db.comments
    ensures var db := After(st, run).db;
      && Replay(EventsOf(db.audit, id)) == Some(db.comments[id].status)
      && IdsAscend(EventsOf(db.audit, id))
      && (db.comments[id].hiddenAt.Some? <==> db.comments[id].status == Hidden)
  {
    StartIsInv(st);
    RunKeepsInv(st, run);
    assert CommentConsistent(After(st, run).db, After(st, run).nextComment, id);
  }

  /** A trail that replays alternates hide and unhide, starting with hide. */
  lemma {:induction false} TrailAlternates(events: seq<AuditEvent>)
    requires Replay(events).Some?
    ensures forall k :: 0 <= k < |events| ==>
      && events[k].eventType == (if k % 2 == 0 then CommentHide else CommentUnhide)
      && events[k].previous == (if k % 2 == 0 then Visible else Hidden)
      && events[k].next == (if k % 2 == 0 then Hidden else Visible)
    ensures Replay(events) == Some(if |events| % 2 == 0 then Visible else Hidden)
  {
    if events != [] {
      TrailAlternates(events[..|events| - 1]);
    }
  }

  /** The steps in which the committed status of comment `id` changes. */
  ghost function Transitions(st: System, run: seq<Action>, id: int): nat
    requires IsRun(st, run)
  {
    if run == [] then 0
    else
      var before, after := After(st, run[..|run| - 1]).db, After(st, run).db;
      Transitions(st, run[..|run| - 1], id) +
      if id in before.comments && id in after.comments && before.comments[id].status != after.comments[id].status then 1 else 0
  }

  /** A step appends to the audit trail of `id` exactly when it changes the status of `id`,
      and then one event; refused, repeated and rolled-back moderation appends nothing. */
  lemma {:induction false} AuditStep(st: System, a: Action, id: int)
    requires Inv(st) && Enabled(st, a)
    ensures var db, db' := st.db, Next(st, a).db;
      var changes := id in db.comments && id in db'.comments && db.comments[id].status != db'.comments[id].status;
      |EventsOf(db'.audit, id)| == |EventsOf(db.audit, id)| + if changes then 1 else 0
  {
    var s := st.sessions[a.session];
    assert SessionOk(st, s);
    if a.Execute? && s.Moderating? && s.moderatePc.Audited? {
      assert CommentConsistent(st.db, st.nextComment, s.id);
      EventsOfAppend(st.db.audit, s.moderatePc.event, id);
    }
  }

  /** Conservation: the trail of a comment grows by exactly its real transitions. */
  lemma {:induction false} EventsCountTransitions(st: System, run: seq<Action>, id: int)
    requires Inv(st) && IsRun(st, run)
    ensures |EventsOf(After(st, run).db.audit, id)| == |EventsOf(st.db.audit, id)| + Transitions(st, run, id)
  {
    if run != [] {
      EventsCountTransitions(st, run[..|run| - 1], id);
      RunKeepsInv(st, run[..|run| - 1]);
      AuditStep(After(st, run[..|run| - 1]), run[|run| - 1], id);
    }
  }
}
