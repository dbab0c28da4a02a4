/**
 The `Replicator` object itself: nested loops over tables, events and replicas, each remote call
 preceded by whatever the primary's clients did meanwhile and free to fail. Every method extends
 a ghost run of the protocol, so what holds of every run holds of this code.
 */
module Replicator {
  import D = ReplicationDelivery
  import opened ReplicationProtocol
  import opened ReplicationRuns

  /** What the outside world does at one remote call: client writes first, then the call's fate. */
  datatype ClientWrite = Put(t: Key, row: Row) | Drop(t: Key, id: nat)
  datatype Turn = Turn(writes: seq<ClientWrite>, ok: bool)

  ghost predicate Extends(run: Run, earlier: Run) {
    earlier.states <= run.states && earlier.acts <= run.acts
  }

  /** `run` is `earlier`, then client writes, then the one worker action `a`. */
  ghost predicate ExtendsBy(run: Run, earlier: Run, a: Action) {
    && Extends(run, earlier)
    && |run.acts| > |earlier.acts|
    && run.acts[|run.acts| - 1] == a
    && ClientsOnly(run.acts[|earlier.acts|..|run.acts| - 1])
  }

  ghost predicate ClientsOnly(acts: seq<Action>) {
    forall i :: 0 <= i < |acts| ==> acts[i].ClientInsert? || acts[i].ClientDelete?
  }

  /** The action ends an event: its last replica call is over, or its row could not be re-read. */
  ghost predicate EndsEvent(s: State, a: Action)
    requires WellFormed(s)
  {
    || (a.EndEvent? && s.phase.Writing? && s.phase.done == |s.replicas|)
    || (a.ReRead? && AtInsert(s)
        && !(a.ok && s.phase.p.events[s.phase.p.pos].rowId < |s.primary[s.phase.p.t].Rows()|))
  }

  /**
   One table's turn in a pass, as the stretch `lo..hi` of a run: client writes, then LOG; and if that
   answered, every event of the window it opened is replayed to its end and the cursor moves to the
   length the log had then.
   */
  ghost predicate TurnOf(run: Run, lo: nat, hi: nat, t: Key)
    requires run.Valid()
  {
    exists at: nat :: lo <= at < hi <= |run.acts| && TurnAt(run, lo, at, hi, t)
  }

  ghost predicate TurnAt(run: Run, lo: nat, at: nat, hi: nat, t: Key)
    requires run.Valid() && lo <= at < hi <= |run.acts|
  {
    && ClientsOnly(run.acts[lo..at])
    && run.acts[at].ReadLog? && run.acts[at].t == t
    && (!run.acts[at].ok ==> hi == at + 1)
    && (run.acts[at].ok ==>
          && run.acts[hi - 1] == Commit
          && Opened(run.states[at + 1], t)
          && t in run.states[hi].cursors && t in run.states[hi].handled
          && run.states[hi].cursors[t] == run.states[at + 1].phase.p.next
          && forall k: nat :: run.states[at + 1].phase.p.start <= k < run.states[at + 1].phase.p.next ==>
               k in run.states[hi].handled[t])
  }

  /** LOG has just answered for table `t`. */
  ghost predicate Opened(s: State, t: Key) {
    && t in s.primary && t in s.cursors && s.cursors[t] <= |s.primary[t].log|
    && s.phase == Between(Window(s.primary[t], s.cursors[t]).(t := t))
  }

  /** A pass: one turn after the other, `cuts` apart, for each table in order. */
  ghost predicate PassOver(run: Run, cuts: seq<nat>, tables: seq<Key>)
    requires run.Valid()
  {
    && |cuts| == |tables| + 1
    && forall i {:trigger tables[i]} :: 0 <= i < |tables| ==> TurnOf(run, cuts[i], cuts[i + 1], tables[i])
  }

  lemma Reflexive(run: Run)
    ensures Extends(run, run)
  {
  }

  lemma Transitive(c: Run, b: Run, a: Run)
    requires Extends(c, b) && Extends(b, a)
    ensures Extends(c, a)
  {
  }

  lemma LogExtends(run: Run, earlier: Run, a: Action)
    requires ExtendsBy(run, earlier, a)
    ensures Extends(run, earlier)
  {
  }

  lemma OpenedAt(s: State, t: Key)
    requires Opened(s, t)
    ensures t in s.primary && s.phase.Between? && s.phase.p.next == |s.primary[t].log|
  {
  }

  lemma FailedTurn(run: Run, start: Run, t: Key)
    requires run.Valid() && ExtendsBy(run, start, ReadLog(t, false))
    ensures TurnOf(run, |start.acts|, |run.acts|, t)
  {
    assert TurnAt(run, |start.acts|, |run.acts| - 1, |run.acts|, t);
  }

  /** LOG, the events to the last, and the commit make one turn. */
  lemma WholeTurn(run: Run, done: Run, logged: Run, start: Run, t: Key)
    requires run.Valid() && done.Valid() && logged.Valid() && start.Valid()
    requires ExtendsBy(logged, start, ReadLog(t, true)) && Opened(logged.Last(), t)
    requires Extends(done, logged) && Extends(run, done) && run.acts == done.acts + [Commit]
    requires var s := done.Last();
             && s.phase.Between? && s.phase.p.t == t && !s.phase.p.More()
             && s.phase.p.start == logged.Last().phase.p.start && s.phase.p.next == logged.Last().phase.p.next
    ensures TurnOf(run, |start.acts|, |run.acts|, t)
  {
    hide WellFormed, Step, Opened, D.PassCovered;
    var lo, at, hi := |start.acts|, |logged.acts| - 1, |run.acts|;
    assert run.states[at + 1] == logged.Last() && run.states[hi - 1] == done.Last();
    assert run.acts[lo..at] == logged.acts[lo..at];
    CoveredWhenOpened(logged.Last(), t);
    WindowHandled(run, at + 1, hi - 1);
    CommitKeepsHandled(run.states[hi - 1], t);
    assert TurnAt(run, lo, at, hi, t);
  }

  lemma CoveredWhenOpened(s: State, t: Key)
    requires WellFormed(s) && Opened(s, t)
    ensures D.PassCovered(s)
  {
  }

  lemma CommitKeepsHandled(s: State, t: Key)
    requires WellFormed(s) && s.phase.Between? && s.phase.p.t == t && !s.phase.p.More() && D.PassCovered(s)
    ensures t in Step(s, Commit).cursors && t in Step(s, Commit).handled && Step(s, Commit).cursors[t] == s.phase.p.next
    ensures forall k: nat :: s.phase.p.start <= k < s.phase.p.next ==> k in Step(s, Commit).handled[t]
  {
  }

  lemma TurnStays(run: Run, earlier: Run, lo: nat, hi: nat, t: Key)
    requires run.Valid() && earlier.Valid() && Extends(run, earlier) && TurnOf(earlier, lo, hi, t)
    ensures TurnOf(run, lo, hi, t)
  {
    hide WellFormed, Step, Opened;
    var at: nat :| lo <= at < hi <= |earlier.acts| && TurnAt(earlier, lo, at, hi, t);
    assert |earlier.states| == |earlier.acts| + 1 && |run.states| == |run.acts| + 1;
    assert run.states[at + 1] == earlier.states[at + 1] && run.states[hi] == earlier.states[hi];
    assert run.acts[at] == earlier.acts[at] && run.acts[hi - 1] == earlier.acts[hi - 1];
    hide Run.Valid;
    assert run.acts[lo..at] == earlier.acts[lo..at];
    assert TurnAt(run, lo, at, hi, t);
  }

  lemma PassGrows(run: Run, earlier: Run, cuts: seq<nat>, tables: seq<Key>, hi: nat, t: Key)
    requires run.Valid() && earlier.Valid() && Extends(run, earlier) && PassOver(earlier, cuts, tables)
    requires TurnOf(run, cuts[|tables|], hi, t)
    ensures PassOver(run, cuts + [hi], tables + [t])
  {
    hide TurnOf, Extends, Run.Valid;
    var all, more := tables + [t], cuts + [hi];
    forall i | 0 <= i < |all|
      ensures TurnOf(run, more[i], more[i + 1], all[i])
    {
      if i < |tables| {
        assert all[i] == tables[i];
        TurnStays(run, earlier, cuts[i], cuts[i + 1], tables[i]);
      }
    }
  }

  /** Between LOG and commit, what has been passed of the window is handled. */
  lemma {:induction false} WindowHandled(run: Run, lo: nat, n: nat)
    requires run.Valid() && lo <= n <= |run.acts| && D.PassCovered(run.states[lo])
    ensures D.PassCovered(run.states[n])
  {
    hide WellFormed, Step, D.PassCovered;
    if lo < n {
      WindowHandled(run, lo, n - 1);
      var i := n - 1;
      assert WellFormed(run.states[i]) && WellFormed(run.states[i + 1])
             && run.states[i + 1] == Step(run.states[i], run.acts[i]);
      D.StepPassCovered(run.states[n - 1], run.acts[n - 1]);
    }
  }

  ghost function EventsEnded(run: Run, n: nat): nat
    requires run.Valid() && n <= |run.acts|
  {
    if n == 0 then 0
    else EventsEnded(run, n - 1) + if EndsEvent(run.states[n - 1], run.acts[n - 1]) then 1 else 0
  }

  lemma {:induction false} EventsEndedExtends(run: Run, earlier: Run, n: nat)
    requires run.Valid() && earlier.Valid() && Extends(run, earlier) && n <= |earlier.acts|
    ensures EventsEnded(run, n) == EventsEnded(earlier, n)
  {
    if n > 0 {
      EventsEndedExtends(run, earlier, n - 1);
    }
  }

  /** `cursors` is `loaded`, with 0 for the tables it does not have. */
  ghost predicate Defaulted(loaded: map<Key, nat>, tables: seq<Key>, cursors: map<Key, nat>) {
    && (forall t :: t in cursors <==> t in loaded || t in tables)
    && (forall t :: t in cursors ==> cursors[t] == if t in loaded then loaded[t] else 0)
  }

  lemma ReloadDefaults(s: State, tables: seq<Key>, loaded: map<Key, nat>, cursors: map<Key, nat>)
    requires s.tables == (set t | t in tables) && Defaulted(loaded, tables, cursors)
    requires loaded == if s.checkpoint.Saved? then s.checkpoint.cursors else map[]
    ensures cursors == Reload(s)
  {
  }

  lemma ReloadIgnoresCursors(s: State, cursors: map<Key, nat>)
    ensures Reload(s.(cursors := cursors)) == Reload(s)
  {
  }

  lemma CrashStep(s: State)
    requires WellFormed(s)
    ensures Step(s, Crash) == s.(phase := Idle, cursors := Reload(s))
  {
  }

  lemma WriteStep(s: State, ok: bool)
    requires WellFormed(s) && s.phase.Writing? && s.phase.done < |s.replicas|
    ensures s.phase.p.t in s.replicas[s.phase.done]
    ensures Step(s, Write(ok)) ==
              var r, t, rep := s.phase.done, s.phase.p.t, s.replicas[s.phase.done];
              s.(phase := s.phase.(done := r + 1),
                 replicas := if ok then s.replicas[r := rep[t := Apply(rep[t], s.phase.call)]] else s.replicas)
  {
  }

  lemma ReReadStep(s: State, ok: bool)
    requires WellFormed(s) && AtInsert(s)
    ensures s.phase.p.t in s.primary && s.phase.p.t in s.handled && s.primary[s.phase.p.t].hist != []
    ensures var p := s.phase.p;
            var rows, id := s.primary[p.t].Rows(), p.events[p.pos].rowId;
            && Step(s, ReRead(ok)) ==
                 (if ok && id < |rows| then s.(phase := Writing(p, DoInsert(rows[id]), 0)) else Advance(s, p))
            && (EndsEvent(s, ReRead(ok)) <==> !(ok && id < |rows|))
  {
  }

  ghost function StartState(tables: seq<Key>, primary: map<Key, Table>, replicas: seq<map<Key, seq<Row>>>,
                            checkpoint: Checkpoint): State {
    var keys := set t | t in tables;
    var s := State(keys, primary, replicas, map[], checkpoint, Idle, map t | t in keys :: {}, map t | t in keys :: {});
    s.(cursors := Reload(s))
  }

  class Replicator {
    const tables: seq<Key>
    var cursors: map<Key, nat>
    var checkpoint: Checkpoint
    // the servers at the other end of the connections, and how they will behave
    var primary: map<Key, Table>
    var replicas: seq<map<Key, seq<Row>>>
    var turns: seq<Turn>

    ghost var phase: Phase
    ghost var handled: map<Key, set<nat>>
    ghost var dropped: map<Key, set<nat>>
    ghost var run: Run

    ghost function TableSet(): set<Key> { set t | t in tables }

    ghost function View(): State
      reads this
    {
      State(TableSet(), primary, replicas, cursors, checkpoint, phase, handled, dropped)
    }

    ghost predicate Valid()
      reads this
    {
      run.Valid() && run.Last() == View()
    }

    ghost function Ended(): nat
      requires run.Valid()
      reads this
    {
      EventsEnded(run, |run.acts|)
    }

    /** Records that the fields have just moved by action `a`. */
    ghost method Record(a: Action)
      requires run.Valid() && View() == Step(run.Last(), a)
      modifies this`run
      ensures Valid() && Extends(run, old(run)) && run.acts == old(run.acts) + [a]
      ensures Ended() == old(Ended()) + if EndsEvent(old(run).Last(), a) then 1 else 0
    {
      AnyActionMayFollow(run, a);
      ghost var earlier := run;
      run := Run(run.states + [Step(run.Last(), a)], run.acts + [a]);
      EventsEndedExtends(run, earlier, |earlier.acts|);
    }

    /** Built and connected: the checkpoint is read, and tables it does not have start at 0. */
    constructor (tables: seq<Key>, primary: map<Key, Table>, replicas: seq<map<Key, seq<Row>>>,
                 checkpoint: Checkpoint, turns: seq<Turn>)
      requires WellFormed(StartState(tables, primary, replicas, checkpoint))
      ensures Valid() && phase.Idle? && run.acts == []
      ensures this.tables == tables && this.primary == primary && this.replicas == replicas
      ensures this.checkpoint == checkpoint && this.turns == turns
      ensures forall t :: t in tables ==> t in cursors && cursors[t] == Resumed(t)
    {
      hide WellFormed, Reload, Defaulted;
      this.tables, this.primary, this.replicas := tables, primary, replicas;
      this.checkpoint, this.turns := checkpoint, turns;
      cursors, phase := if checkpoint.Saved? then checkpoint.cursors else map[], Idle;
      handled, dropped := map t | t in tables :: {}, map t | t in tables :: {};
      new;
      ghost var loaded := cursors;
      ghost var start := StartState(tables, primary, replicas, checkpoint);
      DefaultCursors();
      ReloadDefaults(start, tables, loaded, cursors);
      assert handled == start.handled && dropped == start.dropped;
      assert TableSet() == start.tables;
      assert cursors == start.cursors by {
        ReloadIgnoresCursors(start, map[]);
      }
      run := Run([start], []);
    }

    /** Ensures every configured table has a cursor, 0 where it had none. */
    method DefaultCursors()
      modifies this`cursors
      ensures Defaulted(old(cursors), tables, cursors)
      ensures forall t :: t in tables ==> t in cursors && cursors[t] == if t in old(cursors) then old(cursors)[t] else 0
    {
      for i := 0 to |tables|
        invariant Defaulted(old(cursors), tables[..i], cursors)
      {
        assert tables[..i + 1] == tables[..i] + [tables[i]];
        if tables[i] !in cursors {
          cursors := cursors[tables[i] := 0];
        }
      }
      assert tables[..|tables|] == tables;
    }

    method OneWrite(w: ClientWrite)
      requires Valid()
      modifies this`primary, this`run
      ensures Valid() && Extends(run, old(run)) && Ended() == old(Ended())
      ensures run.acts == old(run.acts) + [if w.Put? then ClientInsert(w.t, w.row) else ClientDelete(w.t, w.id)]
    {
      hide Follows, DeleteRow, EventsEnded;
      match w
      case Put(t, row) =>
        if t in primary {
          primary := primary[t := primary[t].Insert(row)];
        }
        Record(ClientInsert(t, row));
      case Drop(t, id) =>
        if t in primary {
          primary := primary[t := primary[t].Delete(id)];
        }
        Record(ClientDelete(t, id));
    }

    /** Clients write to the primary; the next call's fate is drawn. */
    method NextTurn() returns (ok: bool)
      requires Valid()
      modifies this`primary, this`turns, this`run
      ensures Valid() && Extends(run, old(run)) && ClientsOnly(run.acts[|old(run).acts|..])
      ensures Ended() == old(Ended())
      ensures old(turns) == [] ==> ok && turns == [] && primary == old(primary)
    {
      hide Follows, DeleteRow, EventsEnded, WellFormed, Step, Run.Valid;
      if turns == [] {
        return true;
      }
      var turn := turns[0];
      turns := turns[1..];
      for i := 0 to |turn.writes|
        invariant Valid() && Extends(run, old(run)) && ClientsOnly(run.acts[|old(run).acts|..])
        invariant Ended() == old(Ended())
      {
        OneWrite(turn.writes[i]);
      }
      ok := turn.ok;
    }

    /** LOG hid tid since: the events still in the ring, and the new cursor; None is an error reply. */
    method Log(t: Key) returns (ok: bool, cursor: nat, events: seq<Event>)
      requires Valid() && phase.Idle? && t in tables
      modifies this`primary, this`turns, this`run, this`phase
      ensures Valid() && ExtendsBy(run, old(run), ReadLog(t, ok)) && Ended() == old(Ended())
      ensures !ok ==> phase.Idle?
      ensures ok ==> phase.Between? && phase.p.t == t && phase.p.pos == 0
      ensures ok ==> phase.p.events == events && phase.p.next == cursor && Opened(View(), t)
      ensures old(turns) == [] ==> ok && turns == [] && primary == old(primary)
    {
      hide Follows, DeleteRow, EventsEnded;
      ok := NextTurn();
      cursor, events := 0, [];
      if ok {
        var w := Window(primary[t], cursors[t]);
        cursor, events := w.next, w.events;
        phase := Between(w.(t := t));
      }
      Record(ReadLog(t, ok));
    }

    /** GET hid tid row_id on the primary, as its rows are by now. */
    method Get(t: Key, rowId: nat) returns (found: bool, row: Row)
      requires Valid() && phase.Between? && phase.p.t == t && phase.p.More()
      requires phase.p.events[phase.p.pos] == Event(rowId, Ins)
      modifies this`primary, this`turns, this`run, this`phase, this`handled
      ensures Valid() && (ExtendsBy(run, old(run), ReRead(true)) || (!found && ExtendsBy(run, old(run), ReRead(false))))
      ensures Ended() == old(Ended()) + if found then 0 else 1
      ensures found ==> phase == Writing(old(phase).p, DoInsert(row), 0)
      ensures !found ==> phase == Between(old(phase).p.(pos := old(phase).p.pos + 1))
      ensures old(turns) == [] ==> turns == [] && primary == old(primary)
    {
      hide Follows, DeleteRow, EventsEnded, Step, WellFormed, EndsEvent, Table.Rows;
      var ok := NextTurn();
      ReReadStep(View(), ok);
      var rows := primary[t].Rows();
      found := ok && rowId < |rows|;
      if found {
        row := rows[rowId];
        phase := Writing(phase.p, DoInsert(row), 0);
      } else {
        row := [];
        handled := handled[t := handled[t] + {phase.p.start + phase.p.pos}];
        phase := Between(phase.p.(pos := phase.p.pos + 1));
      }
      Record(ReRead(ok));
    }

    /** INSERT or DELETE on replica `r`; a failure is only logged. */
    method CallReplica(r: nat, t: Key, call: Call)
      requires Valid() && phase.Writing? && phase.done == r < |replicas| && phase.p.t == t && phase.call == call
      modifies this`primary, this`turns, this`run, this`phase, this`replicas
      ensures Valid() && exists ok :: ExtendsBy(run, old(run), Write(ok))
      ensures Ended() == old(Ended())
      ensures phase == old(phase).(done := r + 1) && |replicas| == |old(replicas)|
      ensures old(turns) == [] ==> turns == [] && primary == old(primary)
    {
      hide Follows, DeleteRow, EventsEnded, Step, WellFormed;
      var ok := NextTurn();
      WriteStep(View(), ok);
      if ok {
        replicas := replicas[r := replicas[r][t := Apply(replicas[r][t], call)]];
      }
      phase := phase.(done := r + 1);
      Record(Write(ok));
    }

    ghost method BeginDelete(rowId: nat)
      requires Valid() && phase.Between? && phase.p.More() && phase.p.events[phase.p.pos] == Event(rowId, Del)
      modifies this`run, this`phase
      ensures Valid() && Extends(run, old(run)) && run.acts == old(run.acts) + [StartDelete]
      ensures Ended() == old(Ended()) && phase == Writing(old(phase).p, DoDelete(rowId), 0)
    {
      hide Follows, DeleteRow, EventsEnded;
      phase := Writing(phase.p, DoDelete(rowId), 0);
      Record(StartDelete);
    }

    ghost method FinishEvent()
      requires Valid() && phase.Writing? && phase.done == |replicas|
      modifies this`run, this`phase, this`handled
      ensures Valid() && Extends(run, old(run)) && run.acts == old(run.acts) + [EndEvent]
      ensures Ended() == old(Ended()) + 1 && phase == Between(old(phase).p.(pos := old(phase).p.pos + 1))
    {
      hide Follows, DeleteRow, EventsEnded;
      handled := handled[phase.p.t := handled[phase.p.t] + {phase.p.start + phase.p.pos}];
      phase := Between(phase.p.(pos := phase.p.pos + 1));
      Record(EndEvent);
    }

    method ReplayEvent(t: Key, rowId: nat, op: Op)
      requires Valid() && phase.Between? && phase.p.t == t && phase.p.More()
      requires phase.p.events[phase.p.pos] == Event(rowId, op)
      modifies this`primary, this`turns, this`run, this`phase, this`replicas, this`handled
      ensures Valid() && Extends(run, old(run)) && Ended() == old(Ended()) + 1
      ensures phase == Between(old(phase).p.(pos := old(phase).p.pos + 1))
      ensures old(turns) == [] ==> turns == [] && primary == old(primary)
    {
      hide Follows, DeleteRow, EventsEnded, WellFormed, Step, Run.Valid;
      var call := DoDelete(rowId);
      if op.Ins? {
        var found, row := Get(t, rowId);
        if !found {
          return;
        }
        call := DoInsert(row);
      } else {
        BeginDelete(rowId);
      }
      ghost var p := phase.p;
      for r := 0 to |replicas|
        invariant Valid() && Extends(run, old(run)) && Ended() == old(Ended())
        invariant phase == Writing(p, call, r) && |replicas| == |old(replicas)|
        invariant old(turns) == [] ==> turns == [] && primary == old(primary)
      {
        CallReplica(r, t, call);
      }
      FinishEvent();
    }

    method CommitCursor(t: Key, cursor: nat)
      requires Valid() && phase.Between? && !phase.p.More() && phase.p.t == t && phase.p.next == cursor
      modifies this`cursors, this`run, this`phase, this`dropped
      ensures Valid() && Extends(run, old(run)) && run.acts == old(run.acts) + [Commit]
      ensures Ended() == old(Ended()) && phase.Idle? && cursors == old(cursors)[t := cursor]
    {
      hide Follows, DeleteRow, EventsEnded;
      dropped := dropped[t := dropped[t] + Indices(cursors[t], phase.p.start)];
      cursors := cursors[t := cursor];
      phase := Idle;
      Record(Commit);
    }

    /**
     One pass over all tables; returns how many events it replayed. Each table has its turn, in order;
     when no call fails and no client writes meanwhile, every cursor ends at its log's length.
     */
    method ReplayOnce() returns (total: nat, ghost cuts: seq<nat>)
      requires Valid() && phase.Idle?
      modifies this`primary, this`turns, this`run, this`phase, this`replicas, this`handled, this`cursors, this`dropped
      ensures Valid() && Extends(run, old(run)) && phase.Idle?
      ensures total == Ended() - old(Ended())
      ensures PassOver(run, cuts, tables) && cuts[0] == |old(run).acts| && cuts[|tables|] == |run.acts|
      ensures old(turns) == [] ==>
                && primary == old(primary)
                && forall t :: t in tables ==> t in cursors && t in primary && cursors[t] == |primary[t].log|
    {
      hide Follows, DeleteRow, EventsEnded, WellFormed, Step, Run.Valid, TurnOf, Extends, ExtendsBy, Opened;
      total := 0;
      cuts := [|run.acts|];
      Reflexive(run);
      for i := 0 to |tables|
        invariant Valid() && Extends(run, old(run)) && phase.Idle?
        invariant total == Ended() - old(Ended())
        invariant PassOver(run, cuts, tables[..i]) && cuts[0] == |old(run).acts| && cuts[i] == |run.acts|
        invariant old(turns) == [] ==>
                    && turns == [] && primary == old(primary)
                    && forall j :: 0 <= j < i ==>
                         tables[j] in cursors && tables[j] in primary && cursors[tables[j]] == |primary[tables[j]].log|
      {
        ghost var before := run;
        var t := tables[i];
        var n := Turn(t);
        total := total + n;
        Transitive(run, before, old(run));
        PassGrows(run, before, cuts, tables[..i], |run.acts|, t);
        cuts := cuts + [|run.acts|];
        assert tables[..i] + [t] == tables[..i + 1];
      }
      assert tables[..|tables|] == tables;
    }

    /** One table's turn. */
    method Turn(t: Key) returns (n: nat)
      requires Valid() && phase.Idle? && t in tables
      modifies this`primary, this`turns, this`run, this`phase, this`replicas, this`handled, this`cursors, this`dropped
      ensures Valid() && Extends(run, old(run)) && phase.Idle?
      ensures n == Ended() - old(Ended())
      ensures TurnOf(run, |old(run).acts|, |run.acts|, t)
      ensures forall u :: u in old(cursors) && u != t ==> u in cursors && cursors[u] == old(cursors)[u]
      ensures old(turns) == [] ==>
                turns == [] && primary == old(primary) && t in cursors && t in primary && cursors[t] == |primary[t].log|
    {
      hide Follows, DeleteRow, EventsEnded, WellFormed, Step, Run.Valid, TurnOf, Extends, ExtendsBy, Opened;
      n := 0;
      ghost var start := run;
      var ok, cursor, events := Log(t);
      ghost var logged, view := run, View();
      LogExtends(run, start, ReadLog(t, ok));
      if !ok {
        FailedTurn(run, start, t);
        return;
      }
      Reflexive(run);
      OpenedAt(view, t);
      for k := 0 to |events|
        invariant Valid() && Extends(run, logged) && cursors == old(cursors)
        invariant phase.Between? && phase.p.t == t && phase.p.pos == k && phase.p.start == view.phase.p.start
        invariant phase.p.events == events && phase.p.next == cursor
        invariant n == k == Ended() - old(Ended())
        invariant old(turns) == [] ==> turns == [] && primary == old(primary)
      {
        ghost var was := run;
        ReplayEvent(t, events[k].rowId, events[k].op);
        Transitive(run, was, logged);
        n := n + 1;
      }
      ghost var done := run;
      CommitCursor(t, cursor);
      Transitive(run, done, logged);
      Transitive(run, logged, start);
      WholeTurn(run, done, logged, start, t);
    }

    /** After any pass of any faithful run, the replicas are the primary's past. */
    lemma CommittedReplicas(t: Key, r: nat)
      requires Valid() && phase.Idle? && t in tables && r < |replicas|
      requires InSync(run.First()) && run.Faithful()
      ensures t in replicas[r] && t in primary && t in cursors && cursors[t] < |primary[t].hist|
      ensures replicas[r][t] == primary[t].hist[cursors[t]]
    {
      RunKeepsTables(run, |run.acts|);
      CommittedPassesConverge(run, t, r);
    }

    /** The cursors as last written; nothing readable there means starting over from 0. */
    method LoadCheckpoint()
      requires Valid()
      modifies this`cursors, this`phase, this`run
      ensures Valid() && Extends(run, old(run)) && run.acts == old(run.acts) + [Crash]
      ensures phase.Idle? && forall t :: t in tables ==> t in cursors && cursors[t] == Resumed(t)
    {
      hide Follows, DeleteRow, EventsEnded, Step, WellFormed, Reload;
      CrashStep(View());
      cursors := map[];
      if checkpoint.Saved? {
        cursors := checkpoint.cursors;
      }
      ghost var loaded := cursors;
      DefaultCursors();
      phase := Idle;
      ReloadDefaults(run.Last(), tables, loaded, cursors);
      Record(Crash);
    }

    ghost function Resumed(t: Key): nat
      reads this
    {
      if checkpoint.Saved? && t in checkpoint.cursors then checkpoint.cursors[t] else 0
    }

    /** Writing the file may fail, which leaves the previous one. */
    method SaveCheckpoint(ok: bool)
      requires Valid()
      modifies this`checkpoint, this`run
      ensures Valid() && Extends(run, old(run)) && run.acts == old(run.acts) + [Save(ok)]
      ensures checkpoint == if ok then Saved(cursors) else old(checkpoint)
    {
      if ok {
        checkpoint := Saved(cursors);
      }
      Record(Save(ok));
    }
  }
}
