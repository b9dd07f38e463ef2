/** Deadlock freedom and termination of the protocol. */
module Progress {
  import opened Database
  import opened Protocol
  import opened ProtocolInvariant

  /** Session `i` waits for session `j`: some next statement of `i` needs a lock that
      conflicts with one that `j` holds. */
  ghost predicate WaitsFor(st: System, i: nat, j: nat) {
    && i < |st.sessions| && j < |st.sessions| && i != j
    && exists choice :: BlockedBy(st, i, j, choice)
  }

  ghost predicate BlockedBy(st: System, i: nat, j: nat, choice: Choice)
    requires i < |st.sessions| && j < |st.sessions|
  {
    ChoiceAllowed(st, st.sessions[i], choice) && !Compatible(Wanted(st, st.sessions[i], choice), Held(st.sessions[j]))
  }

  /** How many kinds of lock a session may still wait for: an advisory lock, then a registry
      row, then, for a synchronisation, the rows it writes. */
  function Level(s: Session): nat {
    match s
    case Creating(_, _, pc, _) => if pc == CreateBegun then 3 else if pc == PostLocked then 2 else 0
    case Moderating(_, _, _, _, pc, _) => if pc.Found? || pc == ModerateBegun then 3 else 0
    case Syncing(_, pc, _) => if pc == SyncBegun then 3 else 1
    case Finished(_, _) => 0
  }

  /** What holding a lock says about its holder. */
  lemma HolderLevel(st: System, o: Session, m: Lock)
    requires SessionOk(st, o) && m in Held(o)
    ensures match m
      case PostLock(_) => !o.Syncing? && Level(o) <= 2
      case RowShare(_) => o.Creating? && Level(o) == 0
      case CommentRow(id) => o.Moderating? && o.id == id && Level(o) == 0
      case _ => o.Syncing? && Level(o) == 1 && SyncLock in Held(o)
    ensures m.CommentRow? ==> m.id in st.db.comments && PostLock(st.lockKey(st.db.comments[m.id].slug)) in Held(o)
  {
  }

  /** What wanting a lock says about the session that wants it. */
  lemma WaiterLevel(st: System, s: Session, choice: Choice, l: Lock)
    requires SessionOk(st, s) && l in Wanted(st, s, choice)
    ensures match l
      case PostLock(_) => Level(s) == 3
      case SyncLock => Level(s) == 3
      case RowShare(_) => Level(s) == 2
      case RowUpdate(_) => Level(s) == 1 && SyncLock in Held(s)
      case CommentRow(id) => id in st.db.comments && PostLock(st.lockKey(st.db.comments[id].slug)) in Held(s)
  {
  }

  /** Waiting always goes down a level, so no cycle of waits can form. */
  lemma WaitsGoDown(st: System, i: nat, j: nat)
    requires Inv(st) && WaitsFor(st, i, j)
    ensures Level(st.sessions[j]) < Level(st.sessions[i]) && !st.sessions[j].Finished?
  {
    var s, o := st.sessions[i], st.sessions[j];
    var choice :| BlockedBy(st, i, j, choice);
    assert SessionOk(st, s) && SessionOk(st, o) && Apart(s, o);
    var l, m :| l in Wanted(st, s, choice) && m in Held(o) && Conflicts(l, m);
    WaiterLevel(st, s, choice, l);
    HolderLevel(st, o, m);
    assert Conflicts(SyncLock, SyncLock);
    if l.CommentRow? {
      var post := PostLock(st.lockKey(st.db.comments[l.id].slug));
      assert Conflicts(post, post);
    }
  }

  ghost predicate WaitChain(st: System, chain: seq<nat>) {
    forall n :: 0 <= n < |chain| - 1 ==> WaitsFor(st, chain[n], chain[n + 1])
  }

  lemma {:induction false} ChainsGoDown(st: System, chain: seq<nat>)
    requires Inv(st) && WaitChain(st, chain) && |chain| >= 2
    ensures chain[0] < |st.sessions| && chain[|chain| - 1] < |st.sessions|
    ensures Level(st.sessions[chain[|chain| - 1]]) < Level(st.sessions[chain[0]])
  {
    var last := |chain| - 1;
    assert WaitsFor(st, chain[last - 1], chain[last - 1 + 1]);
    WaitsGoDown(st, chain[last - 1], chain[last]);
    if last > 1 {
      var front := chain[..last];
      forall n | 0 <= n < |front| - 1 ensures WaitsFor(st, front[n], front[n + 1]) {
        assert WaitsFor(st, chain[n], chain[n + 1]);
      }
      ChainsGoDown(st, front);
    }
  }

  /** No deadlock: in no reachable state do sessions wait for each other in a cycle. */
  lemma {:induction false} NoDeadlock(st: System, run: seq<Action>, chain: seq<nat>)
    requires Start(st) && IsRun(st, run) && |chain| >= 2 && WaitChain(After(st, run), chain)
    ensures chain[0] != chain[|chain| - 1]
  {
    StartIsInv(st);
    RunKeepsInv(st, run);
    ChainsGoDown(After(st, run), chain);
  }

  /** Moderation's `FOR UPDATE` never blocks: the post's lock already excludes every rival. */
  lemma {:induction false} ForUpdateNeverBlocks(st: System, run: seq<Action>, i: nat, j: nat)
    requires Start(st) && IsRun(st, run)
    requires i < |After(st, run).sessions| && After(st, run).sessions[i].Moderating? && After(st, run).sessions[i].moderatePc.Locked?
    ensures !WaitsFor(After(st, run), i, j)
  {
    StartIsInv(st);
    RunKeepsInv(st, run);
    if WaitsFor(After(st, run), i, j) { WaitsGoDown(After(st, run), i, j); }
  }

  ghost function SomeChoice(st: System, s: Session): (choice: Choice)
    ensures ChoiceAllowed(st, s, choice)
  {
    var row :| s.Syncing? && s.syncPc.Archiving? && s.syncPc.targets != {} ==> row in s.syncPc.targets;
    Choice(Given(st.nextComment, st.nextAudit, 0), row)
  }

  /** From any unfinished session the chain of waits leads to a session that can execute. */
  lemma {:induction false} SomeoneCanExecute(st: System, i: nat) returns (a: Action)
    requires Inv(st) && i < |st.sessions| && !st.sessions[i].Finished?
    ensures a.Execute? && Enabled(st, a)
    decreases Level(st.sessions[i])
  {
    var choice := SomeChoice(st, st.sessions[i]);
    a := Execute(i, choice);
    if !Enabled(st, a) {
      var j :| 0 <= j < |st.sessions| && j != i && !Compatible(Wanted(st, st.sessions[i], choice), Held(st.sessions[j]));
      assert BlockedBy(st, i, j, choice);
      WaitsGoDown(st, i, j);
      a := SomeoneCanExecute(st, j);
    }
  }

  /** Statements a session has still to execute; an archive pass counts as one. */
  function Remaining(s: Session): nat {
    match s
    case Creating(_, _, pc, _) =>
      (match pc case CreateBegun => 5 case PostLocked => 4 case PolicyChecked => 3 case Counted => 2 case Inserted(_) => 1)
    case Moderating(_, _, _, _, pc, _) =>
      (match pc
       case ModerateBegun => 7 case Found(_) => 6 case Locked(_) => 5 case AlreadyThere(_, _) => 1
       case MustCount(_, _) => 4 case MayUpdate(_, _) => 3 case Updated(_, _, _) => 2 case Audited(_, _, _, _) => 1)
    case Syncing(snapshot, pc, _) =>
      (match pc
       case SyncBegun => 2 * |snapshot.items| + 3
       case AtItem(k, _, _) => if k <= |snapshot.items| then 2 * (|snapshot.items| - k) + 2 else 2
       case OwnerChecked(k, _, _) => if k < |snapshot.items| then 2 * (|snapshot.items| - k) + 1 else 1
       case Archiving(_, _, _, _) => 1)
    case Finished(_, _) => 0
  }

  /** Rows an archive pass has still to visit. */
  function RowsLeft(s: Session): nat {
    if s.Syncing? && s.syncPc.Archiving? then |s.syncPc.targets| else 0
  }

  function SumRemaining(ss: seq<Session>): nat {
    if ss == [] then 0 else Remaining(ss[0]) + SumRemaining(ss[1..])
  }

  function SumRows(ss: seq<Session>): nat {
    if ss == [] then 0 else RowsLeft(ss[0]) + SumRows(ss[1..])
  }

  lemma {:induction false} SumsAfterUpdate(ss: seq<Session>, i: nat, s: Session)
    requires i < |ss|
    ensures SumRemaining(ss[i := s]) == SumRemaining(ss) - Remaining(ss[i]) + Remaining(s)
    ensures SumRows(ss[i := s]) == SumRows(ss) - RowsLeft(ss[i]) + RowsLeft(s)
  {
    if i == 0 {
      assert ss[i := s][1..] == ss[1..];
    } else {
      assert ss[i := s][1..] == ss[1..][i - 1 := s];
      SumsAfterUpdate(ss[1..], i - 1, s);
    }
  }

  ghost predicate Advances(s: Session, s': Session) {
    Remaining(s') < Remaining(s) || (Remaining(s') == Remaining(s) && RowsLeft(s') < RowsLeft(s))
  }

  predicate IndexInRange(s: Session)
    requires s.Syncing?
  {
    && (s.syncPc.AtItem? ==> s.syncPc.index <= |s.snapshot.items|)
    && (s.syncPc.OwnerChecked? ==> s.syncPc.index < |s.snapshot.items|)
  }

  lemma SyncIndexInRange(st: System, s: Session)
    requires s.Syncing? && SyncOk(st, s)
    ensures IndexInRange(s)
  {
  }

  lemma SyncAdvances(st: System, s: Session, choice: Choice)
    requires s.Syncing? && IndexInRange(s) && ChoiceAllowed(st, s, choice)
    ensures Advances(s, SyncStep(st, s, choice))
  {
  }

  lemma CreateAdvances(st: System, s: Session, choice: Choice)
    requires s.Creating?
    ensures Advances(s, CreateStep(st, s, choice))
  {
  }

  lemma ModerateAdvances(st: System, s: Session, choice: Choice)
    requires s.Moderating?
    ensures Advances(s, ModerateStep(st, s, choice))
  {
  }

  lemma SessionAdvances(st: System, s: Session, choice: Choice)
    requires (s.Syncing? ==> IndexInRange(s)) && ChoiceAllowed(st, s, choice) && !s.Finished?
    ensures Advances(s, SessionStep(st, s, choice))
  {
    match s
    case Creating(_, _, _, _) => CreateAdvances(st, s, choice);
    case Moderating(_, _, _, _, _, _) => ModerateAdvances(st, s, choice);
    case Syncing(_, _, _) => SyncAdvances(st, s, choice);
  }

  /** Termination: every action strictly decreases the remaining statements, or keeps them
      and decreases the rows that archive passes have still to visit. */
  lemma ActionsDecrease(st: System, a: Action)
    requires Inv(st) && Enabled(st, a)
    ensures var ss, ss' := st.sessions, Next(st, a).sessions;
      SumRemaining(ss') < SumRemaining(ss) || (SumRemaining(ss') == SumRemaining(ss) && SumRows(ss') < SumRows(ss))
  {
    var s := st.sessions[a.session];
    assert SessionOk(st, s);
    var s' := Next(st, a).sessions[a.session];
    SumsAfterUpdate(st.sessions, a.session, s');
    if a.Execute? {
      if s.Syncing? { SyncIndexInRange(st, s); }
      SessionAdvances(st, s, a.choice);
    }
  }

  ghost predicate AllFinished(st: System) {
    forall i :: 0 <= i < |st.sessions| ==> st.sessions[i].Finished?
  }

  /** From every reachable state, and without any rollback, some schedule finishes all calls. */
  lemma {:induction false} EverythingCanFinish(st: System) returns (run: seq<Action>)
    requires Inv(st)
    ensures IsRun(st, run) && AllFinished(After(st, run))
    ensures forall n :: 0 <= n < |run| ==> run[n].Execute?
    decreases SumRemaining(st.sessions), SumRows(st.sessions)
  {
    if AllFinished(st) {
      return [];
    }
    var i :| 0 <= i < |st.sessions| && !st.sessions[i].Finished?;
    var a := SomeoneCanExecute(st, i);
    ActionsDecrease(st, a);
    StepKeepsInv(st, a);
    var rest := EverythingCanFinish(Next(st, a));
    RunAfterStep(st, a, rest);
    return [a] + rest;
  }

  lemma {:induction false} RunAfterStep(st: System, a: Action, rest: seq<Action>)
    requires Enabled(st, a) && IsRun(Next(st, a), rest)
    ensures IsRun(st, [a] + rest) && After(st, [a] + rest) == After(Next(st, a), rest)
  {
    var run := [a] + rest;
    var n := |run| - 1;
    if rest == [] {
      assert run[..n] == [] && run[n] == a;
      assert IsRun(st, run[..n]) && After(st, run[..n]) == st;
    } else {
      var front := rest[..|rest| - 1];
      RunAfterStep(st, a, front);
      assert run[..n] == [a] + front && run[n] == rest[|rest| - 1];
      assert After(st, run[..n]) == After(Next(st, a), front);
    }
  }
}
