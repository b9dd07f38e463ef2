/** Where committed rows come from, over whole runs of the protocol: every comment is what some
    caller submitted, every audit event what some caller requested, and texts never change. */
module Records {
  import opened Base
  import opened Database
  import opened Protocol
  import opened ProtocolInvariant
  import opened Refinement
  import opened Pagination

  /** Session `i` has finished creating comment `id`, which still carries its input. */
  ghost predicate SubmittedBy(st: System, id: int, i: nat) {
    && i < |st.sessions| && st.sessions[i].Finished? && st.sessions[i].call.Create? && st.sessions[i].outcome.Created?
    && id in st.db.comments
    && var input, row := st.sessions[i].call.input, st.db.comments[id];
       && st.sessions[i].outcome.comment == Comment(id, input.slug, input.author, input.body, input.visitor, Visible, None)
       && row == Comment(id, input.slug, input.author, input.body, input.visitor, row.status, row.hiddenAt)
  }

  /** Event `n` of the audit table is what session `i`, now finished, was asked to record. */
  ghost predicate RequestedBy(st: System, n: nat, i: nat) {
    && i < |st.sessions| && st.sessions[i].Finished? && st.sessions[i].call.SetVisibility? && st.sessions[i].outcome.Moderated?
    && n < |st.db.audit|
    && var call, event := st.sessions[i].call, st.db.audit[n];
       event == AuditEvent(event.id, if call.desired == Visible then CommentUnhide else CommentHide, call.context.actor,
                           if call.context.requestId == [] then None else Some(call.context.requestId),
                           call.id, event.previous, call.desired)
  }

  /** One step changes nothing but the status and the hiding time of a committed comment. */
  lemma StepKeepsText(st: System, a: Action, id: int)
    requires Inv(st) && Enabled(st, a) && id in st.db.comments
    ensures id in Next(st, a).db.comments
    ensures var row, row' := st.db.comments[id], Next(st, a).db.comments[id];
      row' == Comment(row.id, row.slug, row.author, row.body, row.visitor, row'.status, row'.hiddenAt)
  {
    var s := st.sessions[a.session];
    assert SessionOk(st, s);
  }

  /** Between any two points of a run, a comment's post, author, body and visitor never change. */
  lemma {:induction false} TextNeverChanges(st: System, run: seq<Action>, i: nat, j: nat, id: int)
    requires Inv(st) && IsRun(st, run) && i <= j <= |run| && id in TablesAfter(st, run, i).comments
    ensures id in TablesAfter(st, run, j).comments
    ensures var row, row' := TablesAfter(st, run, i).comments[id], TablesAfter(st, run, j).comments[id];
      row' == Comment(row.id, row.slug, row.author, row.body, row.visitor, row'.status, row'.hiddenAt)
    decreases j
  {
    if i < j {
      TextNeverChanges(st, run, i, j - 1, id);
      ActionKeepsText(st, run, j - 1, id);
    }
  }

  lemma {:induction false} ActionKeepsText(st: System, run: seq<Action>, n: nat, id: int)
    requires Inv(st) && IsRun(st, run) && n < |run| && id in TablesAfter(st, run, n).comments
    ensures id in TablesAfter(st, run, n + 1).comments
    ensures var row, row' := TablesAfter(st, run, n).comments[id], TablesAfter(st, run, n + 1).comments[id];
      row' == Comment(row.id, row.slug, row.author, row.body, row.visitor, row'.status, row'.hiddenAt)
  {
    RunPrefix(st, run, n);
    RunPrefix(st, run, n + 1);
    assert run[..n + 1][..n] == run[..n];
    RunKeepsInv(st, run[..n]);
    StepKeepsText(After(st, run[..n]), run[n], id);
  }

  /** Provenance of comments: each one committed during a run is a finished creation's input,
      field by field. */
  lemma {:induction false} EveryCommentWasSubmitted(st: System, run: seq<Action>, id: int)
    requires Inv(st) && IsRun(st, run) && id in After(st, run).db.comments && id !in st.db.comments
    ensures exists i: nat :: SubmittedBy(After(st, run), id, i)
  {
    if run != [] {
      var prefix, a := run[..|run| - 1], run[|run| - 1];
      RunKeepsInv(st, prefix);
      var mid := After(st, prefix);
      if id in mid.db.comments {
        EveryCommentWasSubmitted(st, prefix, id);
        var i: nat :| SubmittedBy(mid, id, i);
        StepKeepsText(mid, a, id);
        assert SubmittedBy(Next(mid, a), id, i);
      } else {
        NewRowIsInput(mid, a, id);
      }
    }
  }

  lemma NewRowIsInput(st: System, a: Action, id: int)
    requires Inv(st) && Enabled(st, a) && id !in st.db.comments && id in Next(st, a).db.comments
    ensures SubmittedBy(Next(st, a), id, a.session)
  {
    var s := st.sessions[a.session];
    assert SessionOk(st, s);
    if a.Execute? && s.Creating? {
      CreateRefines(st, s, a.choice);
    }
  }

  /** Provenance of audit events: the trail only grows, and each new event says who moderated
      which comment how, under which request. */
  lemma {:induction false} EveryEventWasRequested(st: System, run: seq<Action>, n: nat)
    requires Inv(st) && IsRun(st, run) && |st.db.audit| <= n < |After(st, run).db.audit|
    ensures exists i: nat :: RequestedBy(After(st, run), n, i)
  {
    if run != [] {
      var prefix, a := run[..|run| - 1], run[|run| - 1];
      RunKeepsInv(st, prefix);
      var mid := After(st, prefix);
      TrailGrows(mid, a);
      if n < |mid.db.audit| {
        EveryEventWasRequested(st, prefix, n);
        var i: nat :| RequestedBy(mid, n, i);
        assert RequestedBy(Next(mid, a), n, i);
      } else {
        assert RequestedBy(Next(mid, a), n, a.session);
      }
    }
  }

  lemma TrailGrows(st: System, a: Action)
    requires Inv(st) && Enabled(st, a)
    ensures st.db.audit <= Next(st, a).db.audit && |Next(st, a).db.audit| <= |st.db.audit| + 1
    ensures |Next(st, a).db.audit| > |st.db.audit| ==> RequestedBy(Next(st, a), |st.db.audit|, a.session)
  {
    var s := st.sessions[a.session];
    assert SessionOk(st, s);
    if a.Execute? && s.Moderating? {
      ModerateRefines(st, s, a.choice);
    }
  }
}
