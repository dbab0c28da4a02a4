/**
 What every run of the replicator keeps: convergence of the replicas to the primary's
 history, agreement among the replicas, and at-least-once delivery across crashes.
 */
module ReplicationRuns {
  import opened ReplicationProtocol

  // ----- Runs -----

  /** A run: `acts[i]` leads from `states[i]` to `states[i + 1]`. */
  datatype Run = Run(states: seq<State>, acts: seq<Action>) {
    ghost predicate Valid() {
      && |states| == |acts| + 1
      && (forall i :: 0 <= i <= |acts| ==> WellFormed(states[i]))
      && (forall i :: 0 <= i < |acts| ==> states[i + 1] == Step(states[i], acts[i]))
    }

    function First(): State
      requires states != []
    {
      states[0]
    }

    function Last(): State
      requires states != []
    {
      states[|states| - 1]
    }

    ghost predicate Calm()
      requires Valid()
    {
      forall i :: 0 <= i < |acts| ==> CalmStep(states[i], acts[i])
    }

    ghost predicate Faithful()
      requires Valid()
    {
      forall i :: 0 <= i < |acts| ==> FaithfulStep(states[i], acts[i])
    }

    /** At every moment each replica equals the history replayed to it so far. */
    ghost predicate Tracks()
      requires Valid()
    {
      forall i :: 0 <= i <= |acts| ==> InSync(states[i])
    }

    /** The same at event boundaries. */
    ghost predicate Converged()
      requires Valid()
    {
      forall i :: 0 <= i <= |acts| ==> !Diverged(states[i])
    }
  }

  /** Any action at all can come next: a valid run never gets stuck. */
  lemma AnyActionMayFollow(run: Run, a: Action)
    requires run.Valid()
    ensures Run(run.states + [Step(run.Last(), a)], run.acts + [a]).Valid()
  {
    StepWellFormed(run.Last(), a);
    var next := Run(run.states + [Step(run.Last(), a)], run.acts + [a]);
    forall i | 0 <= i < |next.acts|
      ensures next.states[i + 1] == Step(next.states[i], next.acts[i])
    {
      if i < |run.acts| {
        assert next.states[i] == run.states[i] && next.acts[i] == run.acts[i];
      }
    }
  }

  lemma {:induction false} RunKeepsTables(run: Run, n: nat)
    requires run.Valid() && n <= |run.acts|
    ensures run.states[n].tables == run.First().tables && |run.states[n].replicas| == |run.First().replicas|
  {
    if n > 0 {
      RunKeepsTables(run, n - 1);
      StepWellFormed(run.states[n - 1], run.acts[n - 1]);
    }
  }

  // ----- Where a table stands -----

  /** How many log entries of `t` the replicas have replayed, counted at event boundaries. */
  function Reached(s: State, t: Key): nat
    requires WellFormed(s) && t in s.tables
  {
    if !s.phase.Idle? && s.phase.p.t == t then s.phase.p.start + s.phase.p.pos else s.cursors[t]
  }

  lemma ReachedInLog(s: State, t: Key)
    requires WellFormed(s) && t in s.tables
    ensures Reached(s, t) <= |s.primary[t].log|
    ensures s.phase.Writing? && s.phase.p.t == t ==> Reached(s, t) < |s.primary[t].log|
  {
  }

  /** Replica `r` holds the primary's rows as they were after the entries replayed to it. */
  ghost predicate ReplicaAt(s: State, t: Key, r: nat)
    requires WellFormed(s) && t in s.tables && r < |s.replicas|
  {
    ReachedInLog(s, t);
    var ahead := if s.phase.Writing? && s.phase.p.t == t && r < s.phase.done then 1 else 0;
    s.replicas[r][t] == s.primary[t].hist[Reached(s, t) + ahead]
  }

  ghost predicate InSync(s: State)
    requires WellFormed(s)
  {
    forall t, r :: t in s.tables && 0 <= r < |s.replicas| ==> ReplicaAt(s, t, r)
  }

  /** The pending replica call turns the history entry before the event into the one after it. */
  ghost predicate CallFaithful(s: State)
    requires WellFormed(s)
  {
    s.phase.Writing? ==>
      var t := s.phase.p.t;
      var k := Reached(s, t);
      k < |s.primary[t].log| && Apply(s.primary[t].hist[k], s.phase.call) == s.primary[t].hist[k + 1]
  }

  // ----- Side conditions, each readable from the state before the action -----

  predicate AtInsert(s: State)
    requires WellFormed(s)
  {
    s.phase.Between? && s.phase.p.More() && s.phase.p.events[s.phase.p.pos].op.Ins?
  }

  /** The slot named by the insert event exists. */
  predicate RowPresent(s: State)
    requires WellFormed(s) && AtInsert(s)
  {
    var p := s.phase.p;
    p.events[p.pos].rowId < |s.primary[p.t].Rows()|
  }

  /** The slot named by the insert event still holds the row that event inserted. */
  predicate RereadFaithful(s: State)
    requires WellFormed(s) && AtInsert(s)
  {
    var p := s.phase.p;
    var tab := s.primary[p.t];
    var id := p.events[p.pos].rowId;
    id < |tab.Rows()| && id < |tab.hist[p.start + p.pos + 1]| && tab.Rows()[id] == tab.hist[p.start + p.pos + 1][id]
  }

  /** No delete has been logged since the insert event about to be replayed. */
  ghost predicate NoDeleteSince(s: State)
    requires WellFormed(s) && AtInsert(s)
  {
    var log := s.primary[s.phase.p.t].log;
    forall j :: s.phase.p.start + s.phase.p.pos < j < |log| ==> log[j].op.Ins?
  }

  predicate WindowFits(s: State, t: Key)
    requires WellFormed(s) && t in s.tables
  {
    |s.primary[t].log| - s.cursors[t] <= RING
  }

  ghost predicate SameRows(s: State, t: Key, i: nat, j: nat)
    requires WellFormed(s) && t in s.tables
  {
    i <= |s.primary[t].log| && j <= |s.primary[t].log| && s.primary[t].hist[i] == s.primary[t].hist[j]
  }

  /** A crash inside an event falls before the first of its replica calls. */
  predicate CalmStep(s: State, a: Action) { a.Crash? && s.phase.Writing? ==> s.phase.done == 0 }

  /**
   A restart takes the log up where the primary held the rows the replicas hold: at the position
   reached, and one further for the replicas an event has been handed to.
   */
  ghost predicate Resumes(s: State, t: Key)
    requires WellFormed(s) && t in s.tables
  {
    var k, j := Reached(s, t), Reload(s)[t];
    var writing := s.phase.Writing? && s.phase.p.t == t;
    && (writing && s.phase.done > 0 ==> SameRows(s, t, k + 1, j))
    && ((writing && s.phase.done == |s.replicas| > 0) || SameRows(s, t, k, j))
  }

  /**
   What convergence needs of a step, readable before it from the primary's history, the checkpoint and
   the call at hand: a window and a restart take the log up where the primary held the rows the
   replicas hold, a GET answers, and a replica call hands over what the log entry did and succeeds.
   */
  ghost predicate FaithfulStep(s: State, a: Action)
    requires WellFormed(s)
  {
    match a
    case ReadLog(t, ok) =>
      s.phase.Idle? && t in s.tables && ok ==> SameRows(s, t, s.cursors[t], Window(s.primary[t], s.cursors[t]).start)
    case ReRead(ok) => AtInsert(s) ==> ok && RowPresent(s)
    case Write(ok) => s.phase.Writing? && s.phase.done < |s.replicas| ==> ok && CallFaithful(s)
    case Crash => forall t :: t in s.tables ==> Resumes(s, t)
    case _ => true
  }

  /** Windows fit the ring, all calls succeed, and a restart resumes where the worker was. */
  ghost predicate SmoothStep(s: State, a: Action)
    requires WellFormed(s)
  {
    match a
    case ReadLog(t, ok) => s.phase.Idle? && t in s.tables && ok ==> WindowFits(s, t)
    case ReRead(ok) => AtInsert(s) ==> ok
    case Write(ok) => ok
    case Crash =>
      && (s.phase.Writing? ==> s.phase.done == 0)
      && forall t :: t in s.tables ==> Reload(s)[t] == Reached(s, t)
    case _ => true
  }

  /** A smooth step that re-reads nothing a delete may have moved. */
  ghost predicate QuietStep(s: State, a: Action)
    requires WellFormed(s)
  {
    SmoothStep(s, a) && (a.ReRead? && AtInsert(s) ==> NoDeleteSince(s))
  }

  /**
   What `FaithfulStep` needs, with the call at hand read off the slots: a GET answers, and the slot its
   event names still holds the row that event put there.
   */
  ghost predicate SlotStep(s: State, a: Action)
    requires WellFormed(s)
  {
    match a
    case ReRead(ok) => AtInsert(s) ==> ok && RereadFaithful(s)
    case Write(ok) => s.phase.Writing? && s.phase.done < |s.replicas| ==> ok
    case _ => FaithfulStep(s, a)
  }

  // ----- Convergence -----

  /** Inserts only append, so a slot survives until the next delete. */
  lemma {:induction false} SlotSurvives(tab: Table, k: nat, m: nat, id: nat)
    requires tab.Valid() && k <= m <= |tab.log| && id < |tab.hist[k]|
    requires forall j :: k <= j < m ==> tab.log[j].op.Ins?
    ensures id < |tab.hist[m]| && tab.hist[m][id] == tab.hist[k][id]
    decreases m - k
  {
    if k < m {
      SlotSurvives(tab, k, m - 1, id);
      assert Follows(tab.log[m - 1], tab.hist[m - 1], tab.hist[m]);
      assert tab.hist[m][..|tab.hist[m - 1]|][id] == tab.hist[m][id];
    }
  }

  lemma NoDeleteIsFaithful(s: State)
    requires WellFormed(s) && AtInsert(s) && NoDeleteSince(s)
    ensures RereadFaithful(s)
  {
    var p := s.phase.p;
    var tab := s.primary[p.t];
    var k := p.start + p.pos;
    assert tab.log[k] == p.events[p.pos];
    assert Follows(tab.log[k], tab.hist[k], tab.hist[k + 1]);
    SlotSurvives(tab, k + 1, |tab.log|, p.events[p.pos].rowId);
  }

  lemma PlaceInHistory(s: State, u: Key, k: nat)
    requires WellFormed(s) && u in s.tables
    requires k <= Reached(s, u) + if s.phase.Writing? && s.phase.p.t == u then 1 else 0
    ensures u in s.primary && k < |s.primary[u].hist|
  {
    ReachedInLog(s, u);
  }

  lemma GrowthKeepsPlace(s: State, t: Key, tab: Table, u: Key)
    requires WellFormed(s) && t in s.tables && u in s.tables && WellFormed(s.(primary := s.primary[t := tab]))
    ensures Reached(s.(primary := s.primary[t := tab]), u) == Reached(s, u) && u in s.primary
  {
  }

  lemma GrowthKeepsReplica(s: State, t: Key, tab: Table, u: Key, r: nat)
    requires WellFormed(s) && t in s.tables && u in s.tables && r < |s.replicas|
    requires tab.Valid() && s.primary[t].log <= tab.log && s.primary[t].hist <= tab.hist
    requires WellFormed(s.(primary := s.primary[t := tab]))
    ensures ReplicaAt(s.(primary := s.primary[t := tab]), u, r) <==> ReplicaAt(s, u, r)
  {
    var k := Reached(s, u) + if s.phase.Writing? && s.phase.p.t == u && r < s.phase.done then 1 else 0;
    PlaceInHistory(s, u, k);
    GrowthKeepsPlace(s, t, tab, u);
    hide WellFormed, Table.Valid, Reached;
    if u == t {
      assert tab.hist[k] == s.primary[u].hist[k];
    }
  }

  lemma GrowthKeepsSync(s: State, t: Key, tab: Table)
    requires WellFormed(s) && InSync(s) && t in s.tables
    requires tab.Valid() && s.primary[t].log <= tab.log && s.primary[t].hist <= tab.hist
    ensures WellFormed(s.(primary := s.primary[t := tab])) && InSync(s.(primary := s.primary[t := tab]))
  {
    GrowthWellFormed(s, t, tab);
    var s' := s.(primary := s.primary[t := tab]);
    forall u, r | u in s.tables && 0 <= r < |s.replicas|
      ensures ReplicaAt(s', u, r)
    {
      assert ReplicaAt(s, u, r);
      GrowthKeepsReplica(s, t, tab, u, r);
    }
  }

  /** The row re-read for event k is right exactly when replaying it gives the history after k. */
  lemma InsertFaithful(before: seq<Row>, after: seq<Row>, e: Event, row: Row)
    requires Follows(e, before, after) && e.op.Ins?
    ensures before + [row] == after <==> row == after[e.rowId]
  {
    assert after == after[..|before|] + [after[|before|]];
  }

  lemma EventFollows(s: State)
    requires WellFormed(s) && !s.phase.Idle? && s.phase.p.More()
    ensures var p := s.phase.p;
            var k := p.start + p.pos;
            k < |s.primary[p.t].log| && Follows(p.events[p.pos], s.primary[p.t].hist[k], s.primary[p.t].hist[k + 1])
  {
    var p := s.phase.p;
    assert s.primary[p.t].log[p.start + p.pos] == p.events[p.pos];
  }

  /** Every log entry changes the number of rows. */
  lemma EntriesCount(s: State)
    requires WellFormed(s) && !s.phase.Idle? && s.phase.p.More()
    ensures var p := s.phase.p;
            var k := p.start + p.pos;
            k < |s.primary[p.t].log| && s.primary[p.t].hist[k] != s.primary[p.t].hist[k + 1]
  {
    EventFollows(s);
    var p := s.phase.p;
    var k := p.start + p.pos;
    assert |s.primary[p.t].hist[k]| != |s.primary[p.t].hist[k + 1]|;
  }

  /** What a GET answers is right to hand on exactly when the slot still holds the inserted row. */
  lemma GetFaithfulIff(s: State)
    requires WellFormed(s) && AtInsert(s) && RowPresent(s)
    ensures WellFormed(Step(s, ReRead(true))) && Step(s, ReRead(true)).phase.Writing?
    ensures CallFaithful(Step(s, ReRead(true))) <==> RereadFaithful(s)
  {
    StepWellFormed(s, ReRead(true));
    EventFollows(s);
    var p := s.phase.p;
    var k := p.start + p.pos;
    InsertFaithful(s.primary[p.t].hist[k], s.primary[p.t].hist[k + 1], p.events[p.pos],
                   s.primary[p.t].Rows()[p.events[p.pos].rowId]);
  }

  lemma StepKeepsSync(s: State, a: Action)
    requires WellFormed(s) && InSync(s) && FaithfulStep(s, a)
    ensures WellFormed(Step(s, a)) && InSync(Step(s, a))
  {
    StepWellFormed(s, a);
    if a.ClientInsert? {
      if a.t in s.tables {
        TableStep(s.primary[a.t], a.row, 0);
        GrowthKeepsSync(s, a.t, s.primary[a.t].Insert(a.row));
      }
    } else if a.ClientDelete? {
      if a.t in s.tables {
        TableStep(s.primary[a.t], [], a.id);
        GrowthKeepsSync(s, a.t, s.primary[a.t].Delete(a.id));
      }
    } else {
      var s' := Step(s, a);
      forall t, r | t in s.tables && 0 <= r < |s.replicas|
        ensures ReplicaAt(s', t, r)
      {
        assert ReplicaAt(s, t, r);
        hide InSync;
        WorkerKeepsReplica(s, a, t, r);
      }
    }
  }

  /** One replica of one table through one step of the worker. */
  lemma WorkerKeepsReplica(s: State, a: Action, t: Key, r: nat)
    requires WellFormed(s) && WellFormed(Step(s, a)) && t in s.tables && r < |s.replicas|
    requires Step(s, a).tables == s.tables && |Step(s, a).replicas| == |s.replicas|
    requires ReplicaAt(s, t, r) && FaithfulStep(s, a) && !a.ClientInsert? && !a.ClientDelete?
    ensures ReplicaAt(Step(s, a), t, r)
  {
    hide Step, WellFormed, ReplicaAt, CallFaithful, Resumes, SameRows;
    match a
    case ReadLog(_, _) => ReadLogKeepsReplica(s, a, t, r);
    case ReRead(_) => EventKeepsReplica(s, a, t, r);
    case StartDelete => EventKeepsReplica(s, a, t, r);
    case Write(_) =>
      if s.phase.Writing? && s.phase.done < |s.replicas| {
        WriteKeepsReplica(s, t, r);
      } else {
        OtherKeepsReplica(s, a, t, r);
      }
    case EndEvent => EndKeepsReplica(s, t, r);
    case Commit => CommitKeepsReplica(s, t, r);
    case Save(_) => OtherKeepsReplica(s, a, t, r);
    case Tear => OtherKeepsReplica(s, a, t, r);
    case Crash => CrashKeepsReplica(s, t, r);
  }

  lemma OtherKeepsReplica(s: State, a: Action, t: Key, r: nat)
    requires WellFormed(s) && WellFormed(Step(s, a)) && t in s.tables && r < |s.replicas| && ReplicaAt(s, t, r)
    requires a.Save? || a.Tear? || (a.Write? && !(s.phase.Writing? && s.phase.done < |s.replicas|))
    ensures t in Step(s, a).tables && r < |Step(s, a).replicas| && ReplicaAt(Step(s, a), t, r)
  {
    ReachedInLog(s, t);
  }

  lemma WriteKeepsReplica(s: State, t: Key, r: nat)
    requires WellFormed(s) && WellFormed(Step(s, Write(true))) && t in s.tables && r < |s.replicas|
    requires ReplicaAt(s, t, r) && CallFaithful(s)
    ensures t in Step(s, Write(true)).tables && r < |Step(s, Write(true)).replicas|
            && ReplicaAt(Step(s, Write(true)), t, r)
  {
    hide WellFormed;
  }

  lemma EventKeepsReplica(s: State, a: Action, t: Key, r: nat)
    requires WellFormed(s) && WellFormed(Step(s, a)) && t in s.tables && r < |s.replicas|
    requires ReplicaAt(s, t, r) && (a.StartDelete? || (a.ReRead? && (AtInsert(s) ==> a.ok && RowPresent(s))))
    ensures t in Step(s, a).tables && r < |Step(s, a).replicas| && ReplicaAt(Step(s, a), t, r)
  {
    ReachedInLog(s, t);
  }

  lemma EndKeepsReplica(s: State, t: Key, r: nat)
    requires WellFormed(s) && WellFormed(Step(s, EndEvent)) && t in s.tables && r < |s.replicas| && ReplicaAt(s, t, r)
    ensures t in Step(s, EndEvent).tables && r < |Step(s, EndEvent).replicas| && ReplicaAt(Step(s, EndEvent), t, r)
  {
    ReachedInLog(s, t);
  }

  lemma ReadLogKeepsReplica(s: State, a: Action, t: Key, r: nat)
    requires WellFormed(s) && WellFormed(Step(s, a)) && t in s.tables && r < |s.replicas|
    requires ReplicaAt(s, t, r) && a.ReadLog? && FaithfulStep(s, a)
    ensures t in Step(s, a).tables && r < |Step(s, a).replicas| && ReplicaAt(Step(s, a), t, r)
  {
    ReachedInLog(s, t);
  }

  lemma CommitKeepsReplica(s: State, t: Key, r: nat)
    requires WellFormed(s) && WellFormed(Step(s, Commit)) && t in s.tables && r < |s.replicas| && ReplicaAt(s, t, r)
    ensures t in Step(s, Commit).tables && r < |Step(s, Commit).replicas| && ReplicaAt(Step(s, Commit), t, r)
  {
    ReachedInLog(s, t);
  }

  lemma CrashKeepsReplica(s: State, t: Key, r: nat)
    requires WellFormed(s) && WellFormed(Step(s, Crash)) && t in s.tables && r < |s.replicas|
    requires ReplicaAt(s, t, r) && Resumes(s, t)
    ensures t in Step(s, Crash).tables && r < |Step(s, Crash).replicas| && ReplicaAt(Step(s, Crash), t, r)
  {
    ReachedInLog(s, t);
  }

  /**
   Convergence. While every step is faithful, every replica holds exactly the primary's history at
   the position replayed to it so far - however far ahead the primary's clients have run, and wherever
   crashes fall.
   */
  lemma {:induction false} ReplicasFollowHistory(run: Run, n: nat)
    requires run.Valid() && InSync(run.First()) && n <= |run.acts|
    requires forall i :: 0 <= i < n ==> FaithfulStep(run.states[i], run.acts[i])
    ensures InSync(run.states[n])
  {
    if n > 0 {
      ReplicasFollowHistory(run, n - 1);
      StepKeepsSync(run.states[n - 1], run.acts[n - 1]);
    }
  }

  /** ... and so, whenever the worker is between passes, at the committed cursor. */
  lemma CommittedPassesConverge(run: Run, t: Key, r: nat)
    requires run.Valid() && InSync(run.First()) && run.Faithful()
    requires t in run.First().tables && r < |run.First().replicas|
    ensures t in run.Last().tables && r < |run.Last().replicas|
    ensures run.Last().phase.Idle? ==>
              run.Last().replicas[r][t] == run.Last().primary[t].hist[run.Last().cursors[t]]
  {
    ReplicasFollowHistory(run, |run.acts|);
    RunKeepsTables(run, |run.acts|);
    assert ReplicaAt(run.Last(), t, r);
  }

  // ----- Slots -----

  lemma QuietIsSlot(s: State, a: Action)
    requires WellFormed(s) && QuietStep(s, a)
    ensures SlotStep(s, a)
  {
    if a.ReRead? && AtInsert(s) {
      NoDeleteIsFaithful(s);
    } else if a.Crash? {
      forall t | t in s.tables
        ensures Resumes(s, t)
      {
        ReachedInLog(s, t);
      }
    }
  }

  /** The call at hand stays right, and a GET that finds its slot unchanged makes it right. */
  lemma SlotKeepsCall(s: State, a: Action)
    requires WellFormed(s) && SlotStep(s, a) && CallFaithful(s)
    ensures WellFormed(Step(s, a)) && CallFaithful(Step(s, a))
  {
    StepWellFormed(s, a);
    if a.ClientInsert? || a.ClientDelete? {
      GrowthKeepsCall(s, a);
    } else if a.ReRead? && AtInsert(s) {
      GetFaithfulIff(s);
    } else if a.StartDelete? {
      StartDeleteKeepsCall(s);
    } else {
      OtherKeepsCall(s, a);
    }
  }

  lemma GrowthKeepsCall(s: State, a: Action)
    requires WellFormed(s) && WellFormed(Step(s, a)) && (a.ClientInsert? || a.ClientDelete?)
    ensures CallFaithful(Step(s, a)) <==> CallFaithful(s)
  {
    if a.t in s.tables {
      TableStep(s.primary[a.t], if a.ClientInsert? then a.row else [], if a.ClientInsert? then 0 else a.id);
      var tab := if a.ClientInsert? then s.primary[a.t].Insert(a.row) else s.primary[a.t].Delete(a.id);
      assert Step(s, a) == s.(primary := s.primary[a.t := tab]) by {
        hide WellFormed, Table.Insert, Table.Delete;
      }
      hide Step;
      GrownKeepsCall(s, a.t, tab);
    }
  }

  lemma GrownKeepsCall(s: State, t: Key, tab: Table)
    requires WellFormed(s) && t in s.tables && WellFormed(s.(primary := s.primary[t := tab]))
    requires s.primary[t].log <= tab.log && s.primary[t].hist <= tab.hist
    ensures CallFaithful(s.(primary := s.primary[t := tab])) <==> CallFaithful(s)
  {
    if s.phase.Writing? {
      var u := s.phase.p.t;
      ReachedInLog(s, u);
      GrowthKeepsPlace(s, t, tab, u);
      hide WellFormed, Table.Valid, Reached;
      var k := Reached(s, u);
      assert u == t ==> tab.hist[k] == s.primary[t].hist[k] && tab.hist[k + 1] == s.primary[t].hist[k + 1];
    }
  }

  lemma OtherKeepsCall(s: State, a: Action)
    requires WellFormed(s) && WellFormed(Step(s, a)) && CallFaithful(s)
    requires !a.ClientInsert? && !a.ClientDelete? && !a.StartDelete? && !(a.ReRead? && AtInsert(s))
    ensures CallFaithful(Step(s, a))
  {
    var s' := Step(s, a);
    if s'.phase.Writing? {
      assert s.phase.Writing? && s'.primary == s.primary && s'.phase.p == s.phase.p
             && s'.phase.call == s.phase.call by {
        hide WellFormed, CallFaithful;
      }
      hide Step, WellFormed;
      assert Reached(s', s'.phase.p.t) == Reached(s, s.phase.p.t);
    }
  }

  lemma StartDeleteKeepsCall(s: State)
    requires WellFormed(s) && WellFormed(Step(s, StartDelete)) && CallFaithful(s)
    ensures CallFaithful(Step(s, StartDelete))
  {
    if s.phase.Between? && s.phase.p.More() {
      EventFollows(s);
    }
  }

  lemma {:induction false} SlotRunsAreFaithful(run: Run, n: nat)
    requires run.Valid() && CallFaithful(run.First()) && n <= |run.acts|
    requires forall i :: 0 <= i < n ==> SlotStep(run.states[i], run.acts[i])
    ensures CallFaithful(run.states[n])
    ensures forall i :: 0 <= i < n ==> FaithfulStep(run.states[i], run.acts[i])
  {
    hide WellFormed, Step, CallFaithful, RereadFaithful;
    if n > 0 {
      var i := n - 1;
      SlotRunsAreFaithful(run, i);
      assert run.states[i + 1] == Step(run.states[i], run.acts[i]);
      SlotFaithful(run.states[i], run.acts[i]);
      SlotKeepsCall(run.states[i], run.acts[i]);
    }
  }

  lemma SlotFaithful(s: State, a: Action)
    requires WellFormed(s) && SlotStep(s, a) && CallFaithful(s)
    ensures FaithfulStep(s, a)
  {
    hide WellFormed, CallFaithful;
  }

  /**
   While every GET answers from a slot its insert event left as it is - whatever deletes come before and
   between, as long as they spare that slot - calls succeed, and windows and restarts take the log up in
   step, the replicas converge.
   */
  lemma SlotRunsConverge(run: Run, t: Key, r: nat)
    requires run.Valid() && InSync(run.First()) && run.First().phase.Idle?
    requires forall i :: 0 <= i < |run.acts| ==> SlotStep(run.states[i], run.acts[i])
    requires t in run.First().tables && r < |run.First().replicas|
    ensures t in run.Last().tables && r < |run.Last().replicas|
    ensures run.Last().phase.Idle? ==>
              run.Last().replicas[r][t] == run.Last().primary[t].hist[run.Last().cursors[t]]
  {
    assert CallFaithful(run.First());
    hide WellFormed, FaithfulStep, SlotStep, InSync;
    SlotRunsAreFaithful(run, |run.acts|);
    CommittedPassesConverge(run, t, r);
  }

  /** In particular while all goes smoothly and no delete is logged between an insert and the GET that re-reads it. */
  lemma QuietRunsConverge(run: Run, t: Key, r: nat)
    requires run.Valid() && InSync(run.First()) && run.First().phase.Idle?
    requires forall i :: 0 <= i < |run.acts| ==> QuietStep(run.states[i], run.acts[i])
    requires t in run.First().tables && r < |run.First().replicas|
    ensures t in run.Last().tables && r < |run.Last().replicas|
    ensures run.Last().phase.Idle? ==>
              run.Last().replicas[r][t] == run.Last().primary[t].hist[run.Last().cursors[t]]
  {
    hide WellFormed, SlotStep, QuietStep, InSync;
    forall i | 0 <= i < |run.acts|
      ensures SlotStep(run.states[i], run.acts[i])
    {
      QuietIsSlot(run.states[i], run.acts[i]);
    }
    SlotRunsConverge(run, t, r);
  }

  // ----- Where a replica call comes from -----

  /** The call at hand at moment `i` was put together by step `j`. */
  ghost predicate CallFrom(run: Run, j: nat, i: nat)
    requires run.Valid() && i <= |run.acts|
  {
    && j < i && run.states[j].phase.Between? && (run.acts[j].ReRead? || run.acts[j].StartDelete?)
    && forall k :: j < k <= i ==> run.states[k].phase.Writing?
  }

  /**
   In every run, whatever happened since: a call at hand hands over what its log entry did exactly if it
   is a delete, or the GET it stems from found the slot as the insert left it.
   */
  lemma {:induction false} CallFaithfulIffSlot(run: Run, i: nat) returns (j: nat)
    requires run.Valid() && run.First().phase.Idle? && i <= |run.acts| && run.states[i].phase.Writing?
    ensures CallFrom(run, j, i)
    ensures CallFaithful(run.states[i]) <==> (AtInsert(run.states[j]) ==> RereadFaithful(run.states[j]))
  {
    var h := i - 1;
    var s, a := run.states[h], run.acts[h];
    assert run.states[i] == Step(s, a);
    if s.phase.Writing? {
      j := CallFaithfulIffSlot(run, h);
      hide Step, CallFaithful, RereadFaithful;
      HeldCallIff(s, a);
    } else {
      j := h;
      NewCallIff(s, a);
    }
  }

  lemma HeldCallIff(s: State, a: Action)
    requires WellFormed(s) && WellFormed(Step(s, a)) && s.phase.Writing? && Step(s, a).phase.Writing?
    ensures CallFaithful(Step(s, a)) <==> CallFaithful(s)
  {
    if a.ClientInsert? || a.ClientDelete? {
      GrowthKeepsCall(s, a);
    } else {
      assert Step(s, a).primary == s.primary && Step(s, a).phase.p == s.phase.p
             && Step(s, a).phase.call == s.phase.call by {
        hide WellFormed, CallFaithful;
      }
    }
  }

  lemma NewCallIff(s: State, a: Action)
    requires WellFormed(s) && WellFormed(Step(s, a)) && !s.phase.Writing? && Step(s, a).phase.Writing?
    ensures s.phase.Between? && (a.ReRead? || a.StartDelete?)
    ensures CallFaithful(Step(s, a)) <==> (AtInsert(s) ==> RereadFaithful(s))
  {
    if AtInsert(s) {
      assert a == ReRead(true) && RowPresent(s);
      GetFaithfulIff(s);
    } else {
      EventFollows(s);
    }
  }

  // ----- The condition is exact -----

  /** A step that is not faithful leaves some replica off the history at once. */
  lemma UnfaithfulBreaks(s: State, a: Action)
    requires WellFormed(s) && InSync(s) && !FaithfulStep(s, a) && |s.replicas| > 0
    ensures WellFormed(Step(s, a)) && !InSync(Step(s, a))
  {
    StepWellFormed(s, a);
    match a
    case ReadLog(t, _) => UnfaithfulWindow(s, a);
    case ReRead(_) => UnfaithfulReRead(s, a);
    case Write(ok) => UnfaithfulWrite(s, ok);
    case Crash => UnfaithfulRestart(s);
  }

  lemma UnfaithfulWindow(s: State, a: Action)
    requires WellFormed(s) && WellFormed(Step(s, a)) && InSync(s) && a.ReadLog? && !FaithfulStep(s, a)
             && |s.replicas| > 0
    ensures !InSync(Step(s, a))
  {
    assert ReplicaAt(s, a.t, 0);
    hide InSync;
    assert !ReplicaAt(Step(s, a), a.t, 0);
    NotInSync(Step(s, a), a.t, 0);
  }

  lemma NotInSync(s: State, t: Key, r: nat)
    requires WellFormed(s) && t in s.tables && r < |s.replicas| && !ReplicaAt(s, t, r)
    ensures !InSync(s)
  {
    hide WellFormed, ReplicaAt;
  }

  lemma UnfaithfulReRead(s: State, a: Action)
    requires WellFormed(s) && WellFormed(Step(s, a)) && InSync(s) && a.ReRead? && !FaithfulStep(s, a)
             && |s.replicas| > 0
    ensures !InSync(Step(s, a))
  {
    EntriesCount(s);
    assert ReplicaAt(s, s.phase.p.t, 0);
    hide InSync;
    assert !ReplicaAt(Step(s, a), s.phase.p.t, 0);
    NotInSync(Step(s, a), s.phase.p.t, 0);
  }

  lemma UnfaithfulWrite(s: State, ok: bool)
    requires WellFormed(s) && WellFormed(Step(s, Write(ok))) && InSync(s) && !FaithfulStep(s, Write(ok))
    ensures !InSync(Step(s, Write(ok)))
  {
    EntriesCount(s);
    assert ReplicaAt(s, s.phase.p.t, s.phase.done);
    hide InSync;
    assert !ReplicaAt(Step(s, Write(ok)), s.phase.p.t, s.phase.done);
    NotInSync(Step(s, Write(ok)), s.phase.p.t, s.phase.done);
  }

  lemma UnfaithfulRestart(s: State)
    requires WellFormed(s) && WellFormed(Step(s, Crash)) && InSync(s) && !FaithfulStep(s, Crash) && |s.replicas| > 0
    ensures !InSync(Step(s, Crash))
  {
    var t :| t in s.tables && !Resumes(s, t);
    ReachedInLog(s, t);
    var r := if s.phase.Writing? && s.phase.p.t == t && s.phase.done < |s.replicas|
                && SameRows(s, t, Reached(s, t) + 1, Reload(s)[t]) then s.phase.done else 0;
    assert ReplicaAt(s, t, 0) && ReplicaAt(s, t, r);
    hide InSync;
    if ReplicaAt(Step(s, Crash), t, 0) {
      NotInSync(Step(s, Crash), t, r);
    } else {
      NotInSync(Step(s, Crash), t, 0);
    }
  }

  lemma {:induction false} FirstUnfaithful(run: Run, n: nat) returns (i: nat)
    requires run.Valid() && n < |run.acts| && !FaithfulStep(run.states[n], run.acts[n])
    ensures i < |run.acts| && !FaithfulStep(run.states[i], run.acts[i])
    ensures forall j :: 0 <= j < i ==> FaithfulStep(run.states[j], run.acts[j])
  {
    if j :| 0 <= j < n && !FaithfulStep(run.states[j], run.acts[j]) {
      i := FirstUnfaithful(run, j);
    } else {
      i := n;
    }
  }

  /**
   The exact condition, for every run: the replicas hold the history at every moment if and only if
   every step was faithful - windows and restarts take up equal rows, GETs answer, and every replica
   call hands over what its log entry did and succeeds.
   */
  lemma TracksIffFaithful(run: Run)
    requires run.Valid() && InSync(run.First()) && |run.First().replicas| > 0
    ensures run.Tracks() <==> run.Faithful()
  {
    if run.Faithful() {
      forall i | 0 <= i <= |run.acts|
        ensures InSync(run.states[i])
      {
        ReplicasFollowHistory(run, i);
      }
    } else {
      var n :| 0 <= n < |run.acts| && !FaithfulStep(run.states[n], run.acts[n]);
      var i := FirstUnfaithful(run, n);
      ReplicasFollowHistory(run, i);
      RunKeepsTables(run, i);
      UnfaithfulBreaks(run.states[i], run.acts[i]);
      assert run.states[i + 1] == Step(run.states[i], run.acts[i]);
    }
  }

  /** Step `i` is faithful, its replica call judged by the slot its GET found. */
  ghost predicate HandsOnSlot(run: Run, i: nat)
    requires run.Valid() && i < |run.acts|
  {
    var s := run.states[i];
    match run.acts[i]
    case Write(ok) =>
      s.phase.Writing? && s.phase.done < |s.replicas| ==>
        ok && forall j: nat :: CallFrom(run, j, i) && AtInsert(run.states[j]) ==> RereadFaithful(run.states[j])
    case _ => FaithfulStep(s, run.acts[i])
  }

  lemma HandsOnSlotIff(run: Run, i: nat)
    requires run.Valid() && run.First().phase.Idle? && i < |run.acts|
    ensures HandsOnSlot(run, i) <==> FaithfulStep(run.states[i], run.acts[i])
  {
    var s := run.states[i];
    if run.acts[i].Write? && s.phase.Writing? {
      var j := CallFaithfulIffSlot(run, i);
      hide Step, WellFormed, CallFaithful, RereadFaithful, AtInsert;
      forall k: nat | CallFrom(run, k, i)
        ensures k == j
      {
        assert !run.states[k].phase.Writing? && !run.states[j].phase.Writing?;
      }
    }
  }

  /**
   The same condition by slots: the replicas hold the history at every moment if and only if windows and
   restarts take up equal rows, GETs answer, replica calls succeed, and every GET whose row went to a
   replica found the slot as the insert left it.
   */
  lemma TracksIffSlots(run: Run)
    requires run.Valid() && InSync(run.First()) && |run.First().replicas| > 0 && run.First().phase.Idle?
    ensures run.Tracks() <==> forall i :: 0 <= i < |run.acts| ==> HandsOnSlot(run, i)
  {
    TracksIffFaithful(run);
    forall i | 0 <= i < |run.acts|
      ensures HandsOnSlot(run, i) <==> FaithfulStep(run.states[i], run.acts[i])
    {
      HandsOnSlotIff(run, i);
    }
    hide HandsOnSlot, FaithfulStep;
  }

  // ----- What goes wrong inside an event shows at its end -----

  /** A replica that was handed the event does not hold the history after it. */
  ghost predicate Spoiled(s: State) {
    WellFormed(s) && s.phase.Writing? && exists r :: 0 <= r < s.phase.done && !ReplicaAt(s, s.phase.p.t, r)
  }

  ghost predicate Diverged(s: State) {
    WellFormed(s) && !s.phase.Writing? && !InSync(s)
  }

  lemma UnfaithfulSpoils(s: State, a: Action)
    requires WellFormed(s) && InSync(s) && CalmStep(s, a) && !FaithfulStep(s, a) && |s.replicas| > 0
    ensures Spoiled(Step(s, a)) || Diverged(Step(s, a))
  {
    StepWellFormed(s, a);
    if a.Write? {
      EntriesCount(s);
      assert ReplicaAt(s, s.phase.p.t, s.phase.done);
      hide InSync;
      assert !ReplicaAt(Step(s, a), s.phase.p.t, s.phase.done);
    } else {
      UnfaithfulBreaks(s, a);
      NoLongerWriting(s, a);
    }
  }

  lemma NoLongerWriting(s: State, a: Action)
    requires WellFormed(s) && !FaithfulStep(s, a) && !a.Write?
    ensures !Step(s, a).phase.Writing?
  {
  }

  lemma GrowthKeepsSpoiled(s: State, a: Action)
    requires Spoiled(s) && (a.ClientInsert? || a.ClientDelete?)
    ensures Spoiled(Step(s, a))
  {
    StepWellFormed(s, a);
    var u := s.phase.p.t;
    var r :| 0 <= r < s.phase.done && !ReplicaAt(s, u, r);
    if a.t in s.tables {
      var tab := if a.ClientInsert? then s.primary[a.t].Insert(a.row) else s.primary[a.t].Delete(a.id);
      TableStep(s.primary[a.t], if a.ClientInsert? then a.row else [], if a.ClientInsert? then 0 else a.id);
      GrowthWellFormed(s, a.t, tab);
      GrowthKeepsReplica(s, a.t, tab, u, r);
    }
    hide ReplicaAt;
    assert !ReplicaAt(Step(s, a), u, r);
  }

  lemma StepSpoiled(s: State, a: Action)
    requires Spoiled(s) && CalmStep(s, a)
    ensures Spoiled(Step(s, a)) || Diverged(Step(s, a))
  {
    if a.ClientInsert? || a.ClientDelete? {
      GrowthKeepsSpoiled(s, a);
    } else {
      WorkerStepSpoiled(s, a);
    }
  }

  lemma WorkerStepSpoiled(s: State, a: Action)
    requires Spoiled(s) && CalmStep(s, a) && !a.ClientInsert? && !a.ClientDelete?
    ensures Spoiled(Step(s, a)) || Diverged(Step(s, a))
  {
    StepWellFormed(s, a);
    var t := s.phase.p.t;
    var r :| 0 <= r < s.phase.done && !ReplicaAt(s, t, r);
    SpoiledStays(s, a, r);
    hide ReplicaAt;
    if !Step(s, a).phase.Writing? {
      NotInSync(Step(s, a), t, r);
    }
  }

  lemma SpoiledStays(s: State, a: Action, r: nat)
    requires WellFormed(s) && WellFormed(Step(s, a)) && s.phase.Writing? && r < s.phase.done
             && !ReplicaAt(s, s.phase.p.t, r)
    requires CalmStep(s, a) && !a.ClientInsert? && !a.ClientDelete?
    ensures var s', t := Step(s, a), s.phase.p.t;
            && t in s'.tables && r < |s'.replicas| && !ReplicaAt(s', t, r)
            && (s'.phase.Writing? ==> s'.phase.p.t == t && r < s'.phase.done)
  {
    hide WellFormed, Step, ReplicaAt;
    if a.Write? {
      SpoiledWrite(s, a, r);
    } else if a.EndEvent? {
      SpoiledEnds(s, a, r);
    } else {
      SpoiledElse(s, a, r);
    }
  }

  lemma SpoiledWrite(s: State, a: Action, r: nat)
    requires WellFormed(s) && WellFormed(Step(s, a)) && s.phase.Writing? && r < s.phase.done
             && !ReplicaAt(s, s.phase.p.t, r)
    requires a.Write?
    ensures var s', t := Step(s, a), s.phase.p.t;
            && t in s'.tables && r < |s'.replicas| && !ReplicaAt(s', t, r)
            && (s'.phase.Writing? ==> s'.phase.p.t == t && r < s'.phase.done)
  {
    ReachedInLog(s, s.phase.p.t);
  }

  lemma SpoiledEnds(s: State, a: Action, r: nat)
    requires WellFormed(s) && WellFormed(Step(s, a)) && s.phase.Writing? && r < s.phase.done
             && !ReplicaAt(s, s.phase.p.t, r)
    requires a.EndEvent?
    ensures var s', t := Step(s, a), s.phase.p.t;
            && t in s'.tables && r < |s'.replicas| && !ReplicaAt(s', t, r)
            && (s'.phase.Writing? ==> s'.phase.p.t == t && r < s'.phase.done)
  {
    ReachedInLog(s, s.phase.p.t);
  }

  lemma SpoiledElse(s: State, a: Action, r: nat)
    requires WellFormed(s) && WellFormed(Step(s, a)) && s.phase.Writing? && r < s.phase.done
             && !ReplicaAt(s, s.phase.p.t, r)
    requires !a.Write? && !a.EndEvent? && !a.Crash? && !a.ClientInsert? && !a.ClientDelete?
    ensures var s', t := Step(s, a), s.phase.p.t;
            && t in s'.tables && r < |s'.replicas| && !ReplicaAt(s', t, r)
            && (s'.phase.Writing? ==> s'.phase.p.t == t && r < s'.phase.done)
  {
    ReachedInLog(s, s.phase.p.t);
  }

  lemma {:induction false} SpoiledDiverges(run: Run, i: nat) returns (j: nat)
    requires run.Valid() && run.Calm() && i <= |run.acts|
    requires Spoiled(run.states[i]) && !run.Last().phase.Writing?
    ensures j <= |run.acts| && Diverged(run.states[j])
    decreases |run.acts| - i
  {
    StepSpoiled(run.states[i], run.acts[i]);
    if Diverged(run.states[i + 1]) {
      j := i + 1;
    } else {
      j := SpoiledDiverges(run, i + 1);
    }
  }

  /**
   The same at event boundaries, for runs stopped at one, in which a crash inside an event falls before
   its first replica call: a step that is not faithful shows in some replica once its event has ended.
   */
  lemma ConvergesIffFaithful(run: Run)
    requires run.Valid() && InSync(run.First()) && run.Calm()
    requires |run.First().replicas| > 0 && !run.Last().phase.Writing?
    ensures run.Converged() <==> run.Faithful()
  {
    if run.Faithful() {
      forall i | 0 <= i <= |run.acts|
        ensures !Diverged(run.states[i])
      {
        ReplicasFollowHistory(run, i);
      }
    } else {
      var n :| 0 <= n < |run.acts| && !FaithfulStep(run.states[n], run.acts[n]);
      var i := FirstUnfaithful(run, n);
      ReplicasFollowHistory(run, i);
      RunKeepsTables(run, i);
      UnfaithfulSpoils(run.states[i], run.acts[i]);
      assert run.states[i + 1] == Step(run.states[i], run.acts[i]);
      if Spoiled(run.states[i + 1]) {
        var j := SpoiledDiverges(run, i + 1);
      }
    }
  }
}
