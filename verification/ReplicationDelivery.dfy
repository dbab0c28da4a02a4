/**
 What holds of the replicator with no condition on the primary: replicas agree with each other,
 no log entry below a cursor was skipped unless the ring had lost it, crashes included, and one
 table's turn leaves every other table alone. And one run that shows why convergence needs its
 condition.
 */
module ReplicationDelivery {
  import opened ReplicationProtocol
  import opened ReplicationRuns

  // ----- Replica agreement -----

  /** All replicas hold the same rows, up to the one call being handed round. */
  ghost predicate Agree(s: State) {
    WellFormed(s) &&
    forall t, i, j :: t in s.tables && 0 <= i < |s.replicas| && 0 <= j < |s.replicas| ==> AgreeOn(s, t, i, j)
  }

  ghost predicate AgreeOn(s: State, t: Key, i: nat, j: nat)
    requires WellFormed(s) && t in s.tables && i < |s.replicas| && j < |s.replicas|
  {
    if s.phase.Writing? && s.phase.p.t == t && i < s.phase.done <= j then
      s.replicas[i][t] == Apply(s.replicas[j][t], s.phase.call)
    else if s.phase.Writing? && s.phase.p.t == t && j < s.phase.done <= i then
      s.replicas[j][t] == Apply(s.replicas[i][t], s.phase.call)
    else
      s.replicas[i][t] == s.replicas[j][t]
  }

  /** Replica calls do not fail, and no crash cuts a call off between two replicas. */
  predicate Uniform(s: State, a: Action) {
    && (a.Write? ==> a.ok)
    && (a.Crash? && s.phase.Writing? ==> s.phase.done == 0 || s.phase.done == |s.replicas|)
  }

  lemma StepAgrees(s: State, a: Action)
    requires Agree(s) && Uniform(s, a)
    ensures Agree(Step(s, a))
  {
    StepWellFormed(s, a);
    var s' := Step(s, a);
    forall t, i, j | t in s'.tables && 0 <= i < |s'.replicas| && 0 <= j < |s'.replicas|
      ensures AgreeOn(s', t, i, j)
    {
      StepAgreesOn(s, a, t, i, j);
    }
  }

  lemma StepAgreesOn(s: State, a: Action, t: Key, i: nat, j: nat)
    requires Agree(s) && Uniform(s, a) && WellFormed(Step(s, a))
    requires Step(s, a).tables == s.tables && |Step(s, a).replicas| == |s.replicas|
    requires t in s.tables && i < |s.replicas| && j < |s.replicas|
    ensures AgreeOn(Step(s, a), t, i, j)
  {
    hide WellFormed;
    assert AgreeOn(s, t, i, j);
    if a.Write? {
      if s.phase.Writing? && s.phase.done < |s.replicas| {
        assert AgreeOn(s, t, i, s.phase.done) && AgreeOn(s, t, s.phase.done, j);
        WriteStep(s);
      }
    } else {
      OnlyWritesTouchReplicas(s, a);
    }
  }

  lemma WriteStep(s: State)
    requires WellFormed(s) && s.phase.Writing? && s.phase.done < |s.replicas|
    ensures var s' := Step(s, Write(true));
            var t := s.phase.p.t;
            && s'.phase == s.phase.(done := s.phase.done + 1)
            && |s'.replicas| == |s.replicas|
            && forall r, u :: 0 <= r < |s.replicas| && u in s.tables ==>
                 u in s'.replicas[r] && s'.replicas[r][u] ==
                   if r == s.phase.done && u == t then Apply(s.replicas[r][u], s.phase.call) else s.replicas[r][u]
  {
  }

  lemma OnlyWritesTouchReplicas(s: State, a: Action)
    requires WellFormed(s) && !a.Write?
    ensures var s' := Step(s, a);
            && s'.replicas == s.replicas
            && (s'.phase.Writing? ==> s'.phase.done == 0 || s'.phase == s.phase)
            && (!s'.phase.Writing? && s.phase.Writing? ==> a.Crash? || s.phase.done == |s.replicas|)
  {
    match a
    case ReadLog(_, _) =>
    case ReRead(_) =>
    case StartDelete =>
    case EndEvent =>
    case Commit =>
    case _ =>
  }

  /** At every event boundary of every run the replicas are identical, even when they are wrong. */
  lemma {:induction false} ReplicasAgree(run: Run, n: nat, i: nat, j: nat, t: Key)
    requires run.Valid() && Agree(run.First()) && n <= |run.acts|
    requires forall k :: 0 <= k < n ==> Uniform(run.states[k], run.acts[k])
    requires i < |run.First().replicas| && j < |run.First().replicas| && t in run.First().tables
    ensures Agree(run.states[n])
    ensures t in run.states[n].tables && |run.states[n].replicas| == |run.First().replicas|
    ensures !run.states[n].phase.Writing? ==> run.states[n].replicas[i][t] == run.states[n].replicas[j][t]
  {
    RunKeepsTables(run, n);
    if n > 0 {
      ReplicasAgree(run, n - 1, i, j, t);
      StepAgrees(run.states[n - 1], run.acts[n - 1]);
    }
    assert AgreeOn(run.states[n], t, i, j);
  }

  // ----- At least once -----

  ghost predicate Accounted(s: State, t: Key, k: nat)
    requires WellFormed(s) && t in s.tables
  {
    k in s.handled[t] || k in s.dropped[t]
  }

  ghost predicate CursorsCovered(s: State, cursors: map<Key, nat>)
    requires WellFormed(s)
  {
    forall t, k: nat :: t in s.tables && t in cursors && k < cursors[t] ==> Accounted(s, t, k)
  }

  ghost predicate PassCovered(s: State)
    requires WellFormed(s)
  {
    !s.phase.Idle? ==>
      var p := s.phase.p;
      forall k: nat :: p.start <= k < p.start + p.pos ==> k in s.handled[p.t]
  }

  /** Everything below a cursor, in memory or on disk, was replayed or had left the ring. */
  ghost predicate Covered(s: State) {
    && WellFormed(s)
    && CursorsCovered(s, s.cursors)
    && (s.checkpoint.Saved? ==> CursorsCovered(s, s.checkpoint.cursors))
    && PassCovered(s)
  }

  lemma StepAccounts(s: State, a: Action, cursors: map<Key, nat>)
    requires WellFormed(s) && WellFormed(Step(s, a)) && Step(s, a).tables == s.tables
    requires CursorsCovered(s, cursors)
    ensures CursorsCovered(Step(s, a), cursors)
  {
    var s' := Step(s, a);
    forall t, k: nat | t in s'.tables && t in cursors && k < cursors[t]
      ensures Accounted(s', t, k)
    {
      assert Accounted(s, t, k);
    }
  }

  lemma CommitCovered(s: State)
    requires Covered(s) && WellFormed(Step(s, Commit))
    ensures CursorsCovered(Step(s, Commit), Step(s, Commit).cursors)
  {
    var s' := Step(s, Commit);
    forall t, k: nat | t in s'.tables && t in s'.cursors && k < s'.cursors[t]
      ensures Accounted(s', t, k)
    {
      if k < s.cursors[t] {
        assert Accounted(s, t, k);
      }
    }
  }

  lemma StepCovered(s: State, a: Action)
    requires Covered(s)
    ensures Covered(Step(s, a))
  {
    StepWellFormed(s, a);
    StepAccounts(s, a, s.cursors);
    if s.checkpoint.Saved? {
      StepAccounts(s, a, s.checkpoint.cursors);
    }
    StepPassCovered(s, a);
    StepCursors(s, a);
    if a.Commit? {
      CommitCovered(s);
    } else if a.Crash? {
      CrashCovered(s);
    }
  }

  lemma StepCursors(s: State, a: Action)
    requires WellFormed(s)
    ensures !a.Commit? && !a.Crash? ==> Step(s, a).cursors == s.cursors
    ensures var c := Step(s, a).checkpoint; c == s.checkpoint || c == Saved(s.cursors) || c == Corrupt
  {
    match a
    case ReadLog(_, _) =>
    case ReRead(_) =>
    case StartDelete =>
    case Write(_) =>
    case EndEvent =>
    case Commit =>
    case _ =>
  }

  lemma CrashCovered(s: State)
    requires Covered(s) && WellFormed(Step(s, Crash))
    ensures CursorsCovered(Step(s, Crash), Step(s, Crash).cursors)
  {
    var s' := Step(s, Crash);
    forall t, k: nat | t in s'.tables && t in s'.cursors && k < s'.cursors[t]
      ensures Accounted(s', t, k)
    {
      assert Accounted(s, t, k);
    }
  }

  lemma StepPassCovered(s: State, a: Action)
    requires WellFormed(s) && WellFormed(Step(s, a)) && PassCovered(s)
    ensures PassCovered(Step(s, a))
  {
  }

  /**
   At least once. In every run - failing calls, torn checkpoints and crashes anywhere - each log
   index below a table's cursor has been replayed, or had already left the server's ring when the
   window was read; and no cursor passes the end of the log.
   */
  lemma {:induction false} AtLeastOnce(run: Run, n: nat, t: Key, k: nat)
    requires run.Valid() && Covered(run.First()) && n <= |run.acts|
    requires t in run.states[n].tables
    ensures run.states[n].cursors[t] <= |run.states[n].primary[t].log|
    ensures k < run.states[n].cursors[t] ==> k in run.states[n].handled[t] || k in run.states[n].dropped[t]
  {
    RunCovered(run, n);
    if k < run.states[n].cursors[t] {
      assert Accounted(run.states[n], t, k);
    }
  }

  lemma {:induction false} RunCovered(run: Run, n: nat)
    requires run.Valid() && Covered(run.First()) && n <= |run.acts|
    ensures Covered(run.states[n])
  {
    if n > 0 {
      RunCovered(run, n - 1);
      StepCovered(run.states[n - 1], run.acts[n - 1]);
    }
  }

  /** Nothing is lost while every window read fits the ring. */
  lemma {:induction false} NothingDropped(run: Run, n: nat, t: Key)
    requires run.Valid() && n <= |run.acts| && t in run.First().tables
    requires run.First().dropped[t] == {} && run.First().phase.Idle?
    requires forall i :: 0 <= i < n ==> ReadFits(run.states[i], run.acts[i])
    ensures t in run.states[n].tables && run.states[n].dropped[t] == {}
    ensures var s := run.states[n]; !s.phase.Idle? && s.phase.p.t == t ==> s.phase.p.start <= s.cursors[t]
  {
    RunKeepsTables(run, n);
    if n > 0 {
      NothingDropped(run, n - 1, t);
      DropStep(run.states[n - 1], run.acts[n - 1], t);
    }
  }

  predicate ReadFits(s: State, a: Action)
    requires WellFormed(s)
  {
    a.ReadLog? && a.t in s.tables ==> WindowFits(s, a.t)
  }

  lemma DropStep(s: State, a: Action, t: Key)
    requires WellFormed(s) && WellFormed(Step(s, a)) && t in s.tables && ReadFits(s, a)
    requires s.dropped[t] == {} && (!s.phase.Idle? && s.phase.p.t == t ==> s.phase.p.start <= s.cursors[t])
    ensures var s' := Step(s, a);
            && t in s'.tables && s'.dropped[t] == {}
            && (!s'.phase.Idle? && s'.phase.p.t == t ==> s'.phase.p.start <= s'.cursors[t])
  {
    hide WellFormed;
  }

  /** An index counts as replayed only once its event was: all replicas were called, or the GET did not answer. */
  ghost predicate Replays(s: State, a: Action, t: Key, k: nat)
    requires WellFormed(s)
  {
    && !s.phase.Idle? && s.phase.p.t == t && s.phase.p.start + s.phase.p.pos == k && s.phase.p.More()
    && s.phase.p.events[s.phase.p.pos] == s.primary[t].log[k]
    && ((a.EndEvent? && s.phase.Writing? && s.phase.done == |s.replicas|)
        || (a.ReRead? && AtInsert(s)
            && !(a.ok && s.phase.p.events[s.phase.p.pos].rowId < |s.primary[t].Rows()|)))
  }

  ghost predicate ReplayedBefore(run: Run, n: nat, t: Key, k: nat)
    requires run.Valid() && n <= |run.acts|
  {
    exists i :: 0 <= i < n && Replays(run.states[i], run.acts[i], t, k)
  }

  lemma {:induction false} HandledMeansReplayed(run: Run, n: nat, t: Key, k: nat)
    requires run.Valid() && n <= |run.acts| && t in run.First().tables
    ensures t in run.states[n].tables
    ensures k in run.states[n].handled[t] <==> k in run.First().handled[t] || ReplayedBefore(run, n, t, k)
  {
    RunKeepsTables(run, n);
    if n > 0 {
      HandledMeansReplayed(run, n - 1, t, k);
      HandledStep(run.states[n - 1], run.acts[n - 1], t, k);
      assert ReplayedBefore(run, n, t, k) <==>
             ReplayedBefore(run, n - 1, t, k) || Replays(run.states[n - 1], run.acts[n - 1], t, k);
    }
  }

  lemma HandledStep(s: State, a: Action, t: Key, k: nat)
    requires WellFormed(s) && t in s.tables
    ensures t in Step(s, a).tables && t in Step(s, a).handled
    ensures k in Step(s, a).handled[t] <==> k in s.handled[t] || Replays(s, a, t, k)
  {
    if !s.phase.Idle? && s.phase.p.More() {
      EventFollows(s);
    }
    match a
    case ReadLog(_, _) =>
    case ReRead(_) =>
    case StartDelete =>
    case Write(_) =>
    case EndEvent =>
    case Commit =>
    case _ =>
  }

  // ----- Isolation -----

  /** A step that starts or belongs to another table's turn. */
  predicate Elsewhere(s: State, a: Action, t: Key) {
    && !a.Crash?
    && (a.ReadLog? ==> a.t != t)
    && (!s.phase.Idle? ==> s.phase.p.t != t)
  }

  lemma StepIsolated(s: State, a: Action, t: Key, r: nat)
    requires WellFormed(s) && t in s.tables && r < |s.replicas| && Elsewhere(s, a, t)
    requires Step(s, a).tables == s.tables && |Step(s, a).replicas| == |s.replicas|
    ensures var s' := Step(s, a);
            && s'.cursors[t] == s.cursors[t] && s'.replicas[r][t] == s.replicas[r][t]
            && s'.handled[t] == s.handled[t] && s'.dropped[t] == s.dropped[t]
  {
    match a
    case ReadLog(_, _) =>
    case ReRead(_) =>
    case StartDelete =>
    case Write(_) =>
    case EndEvent =>
    case Commit =>
    case _ =>
  }

  /** While the worker is busy with other tables, a table's cursor and replicated rows do not move. */
  lemma {:induction false} OtherTablesUntouched(run: Run, n: nat, t: Key, r: nat)
    requires run.Valid() && n <= |run.acts| && t in run.First().tables && r < |run.First().replicas|
    requires forall i :: 0 <= i < n ==> Elsewhere(run.states[i], run.acts[i], t)
    ensures t in run.states[n].tables && |run.states[n].replicas| == |run.First().replicas|
    ensures run.states[n].cursors[t] == run.First().cursors[t]
    ensures run.states[n].replicas[r][t] == run.First().replicas[r][t]
    ensures run.states[n].handled[t] == run.First().handled[t]
  {
    RunKeepsTables(run, n);
    if n > 0 {
      OtherTablesUntouched(run, n - 1, t, r);
      StepWellFormed(run.states[n - 1], run.acts[n - 1]);
      StepIsolated(run.states[n - 1], run.acts[n - 1], t, r);
    }
  }

  // ----- Convergence is not unconditional -----

  /** Two inserts and a delete of the first row, all logged before the worker's first pass. */
  function RacedTable(a: Row, b: Row): Table {
    Table([Event(0, Ins), Event(1, Ins), Event(0, Del)], [[], [a], [a, b], [b]])
  }

  function RacedStart(t: Key, a: Row, b: Row): State {
    State({t}, map[t := RacedTable(a, b)], [map[t := []]], map[t := 0], Missing, Idle, map[t := {}], map[t := {}])
  }

  lemma RacedStartWellFormed(t: Key, a: Row, b: Row)
    ensures RacedTable(a, b).Valid()
    ensures WellFormed(RacedStart(t, a, b)) && InSync(RacedStart(t, a, b))
  {
    var tab := RacedTable(a, b);
    assert Follows(tab.log[0], tab.hist[0], tab.hist[1]);
    assert Follows(tab.log[1], tab.hist[1], tab.hist[2]);
    assert Follows(tab.log[2], tab.hist[2], tab.hist[3]);
  }

  /** The worker's nine steps over that log, and where each leaves it. */
  function RacedAct(t: Key, n: nat): Action {
    match n
    case 0 => ReadLog(t, true)
    case 1 => ReRead(true)
    case 2 => Write(true)
    case 3 => EndEvent
    case 4 => ReRead(true)
    case 5 => StartDelete
    case 6 => Write(true)
    case 7 => EndEvent
    case _ => Commit
  }

  function RacedState(t: Key, a: Row, b: Row, n: nat): State {
    var p := Pass(t, 0, RacedTable(a, b).log, 3, 0);
    var s := RacedStart(t, a, b);
    var copied := s.(replicas := [map[t := [b]]]);
    match n
    case 0 => s
    case 1 => s.(phase := Between(p))
    case 2 => s.(phase := Writing(p, DoInsert(b), 0))
    case 3 => copied.(phase := Writing(p, DoInsert(b), 1))
    case 4 => copied.(phase := Between(p.(pos := 1)), handled := map[t := {0}])
    case 5 => copied.(phase := Between(p.(pos := 2)), handled := map[t := {0, 1}])
    case 6 => copied.(phase := Writing(p.(pos := 2), DoDelete(0), 0), handled := map[t := {0, 1}])
    case 7 => s.(phase := Writing(p.(pos := 2), DoDelete(0), 1), handled := map[t := {0, 1}])
    case 8 => s.(phase := Between(p.(pos := 3)), handled := map[t := {0, 1, 2}])
    case _ => s.(cursors := map[t := 3], handled := map[t := {0, 1, 2}])
  }

  lemma RacedCall(t: Key, a: Row, b: Row, n: nat)
    requires n == 2 || n == 6
    requires WellFormed(RacedState(t, a, b, n))
    ensures Step(RacedState(t, a, b, n), RacedAct(t, n)) == RacedState(t, a, b, n + 1)
  {
    var s' := Step(RacedState(t, a, b, n), RacedAct(t, n));
    assert [] + [b] == [b] && DeleteRow([b], 0) == [];
    assert s'.replicas[0] == if n == 2 then map[t := [b]] else map[t := []];
  }

  lemma RacedEvent(t: Key, a: Row, b: Row, n: nat)
    requires n == 3 || n == 4 || n == 7
    requires WellFormed(RacedState(t, a, b, n))
    ensures Step(RacedState(t, a, b, n), RacedAct(t, n)) == RacedState(t, a, b, n + 1)
  {
    var s' := Step(RacedState(t, a, b, n), RacedAct(t, n));
    assert {} + {0} == {0} && {0} + {1} == {0, 1} && {0, 1} + {2} == {0, 1, 2};
    assert s'.handled == map[t := if n == 3 then {0} else if n == 4 then {0, 1} else {0, 1, 2}];
  }

  lemma RacedRead(t: Key, a: Row, b: Row, n: nat)
    requires n == 0 || n == 1 || n == 5
    requires WellFormed(RacedState(t, a, b, n))
    ensures Step(RacedState(t, a, b, n), RacedAct(t, n)) == RacedState(t, a, b, n + 1)
  {
    assert RacedTable(a, b).log[0..] == RacedTable(a, b).log;
  }

  lemma RacedCommit(t: Key, a: Row, b: Row, n: nat)
    requires n == 8
    requires WellFormed(RacedState(t, a, b, n))
    ensures Step(RacedState(t, a, b, n), RacedAct(t, n)) == RacedState(t, a, b, n + 1)
  {
    var s' := Step(RacedState(t, a, b, n), RacedAct(t, n));
    assert s'.dropped[t] == {};
    assert s'.dropped == map[t := {}];
  }

  lemma RacedSmooth(t: Key, a: Row, b: Row, n: nat)
    requires n < 9 && WellFormed(RacedState(t, a, b, n))
    ensures SmoothStep(RacedState(t, a, b, n), RacedAct(t, n)) && !RacedAct(t, n).Crash?
  {
    hide WellFormed;
  }

  lemma RacedStep(t: Key, a: Row, b: Row, n: nat)
    requires n < 9 && WellFormed(RacedState(t, a, b, n))
    ensures Step(RacedState(t, a, b, n), RacedAct(t, n)) == RacedState(t, a, b, n + 1)
    ensures SmoothStep(RacedState(t, a, b, n), RacedAct(t, n)) && !RacedAct(t, n).Crash?
  {
    hide RacedState, Step, SmoothStep, WellFormed;
    RacedSmooth(t, a, b, n);
    if n == 2 || n == 6 {
      RacedCall(t, a, b, n);
    } else if n == 3 || n == 4 || n == 7 {
      RacedEvent(t, a, b, n);
    } else if n == 8 {
      RacedCommit(t, a, b, n);
    } else {
      RacedRead(t, a, b, n);
    }
  }

  lemma {:induction false} RacedStateWellFormed(t: Key, a: Row, b: Row, n: nat)
    requires n <= 9
    ensures WellFormed(RacedState(t, a, b, n))
  {
    if n == 0 {
      RacedStartWellFormed(t, a, b);
    } else {
      RacedStateWellFormed(t, a, b, n - 1);
      RacedStep(t, a, b, n - 1);
      StepWellFormed(RacedState(t, a, b, n - 1), RacedAct(t, n - 1));
    }
  }

  /**
   Inserting two rows and deleting the first before one pass reads them leaves the replica empty
   at a cursor where the primary holds the second row: the first GET finds the second row moved
   into slot 0, the second GET finds nothing, and the replayed delete removes what was copied.
   */
  lemma RacedPassLosesRow(t: Key, a: Row, b: Row) returns (run: Run)
    ensures run.Valid() && run.Calm() && InSync(run.First()) && run.Last().phase.Idle?
    ensures forall n :: 0 <= n < |run.acts| ==> SmoothStep(run.states[n], run.acts[n])
    ensures t in run.Last().tables && |run.Last().replicas| == 1
    ensures run.Last().cursors[t] == |run.Last().primary[t].log|
    ensures run.Last().primary[t].Rows() == [b] && run.Last().replicas[0][t] == []
  {
    hide RacedState, RacedStart, RacedAct, WellFormed, Step, SmoothStep, InSync;
    run := Run(seq(10, (n: nat) => RacedState(t, a, b, n)), seq(9, (n: nat) => RacedAct(t, n)));
    forall n | 0 <= n <= 9
      ensures WellFormed(run.states[n])
    {
      RacedStateWellFormed(t, a, b, n);
    }
    forall n | 0 <= n < 9
      ensures run.states[n + 1] == Step(run.states[n], run.acts[n])
      ensures SmoothStep(run.states[n], run.acts[n]) && CalmStep(run.states[n], run.acts[n])
    {
      RacedStateWellFormed(t, a, b, n);
      RacedStep(t, a, b, n);
    }
    RacedStartWellFormed(t, a, b);
    RacedEnd(t, a, b);
  }

  lemma RacedEnd(t: Key, a: Row, b: Row)
    ensures RacedState(t, a, b, 0) == RacedStart(t, a, b)
    ensures var s := RacedState(t, a, b, 9);
            && s.phase.Idle? && t in s.tables && |s.replicas| == 1 && t in s.cursors && t in s.primary
            && t in s.replicas[0]
            && s.cursors[t] == |s.primary[t].log| && s.primary[t].hist != []
            && s.primary[t].Rows() == [b] && s.replicas[0][t] == []
  {
  }
}
