/**
 The change-feed replicator as a state machine: a primary whose clients keep writing,
 any number of replicas, and one worker that tails the primary's log, re-reads each
 inserted row, replays it, and moves a checkpointed cursor.

 One `Action` is one thing that can happen; a run is any sequence of them, so client
 writes, failing calls and crashes fall between any two steps of the worker.
 */
module ReplicationProtocol {
  type Row = seq<string>
  type Key = (nat, nat)  // (hid, tid)

  // ----- Tables, as the wire protocol documents them -----

  datatype Op = Ins | Del
  datatype Event = Event(rowId: nat, op: Op)

  const RING: nat := 1024  // the server keeps this many log entries

  /** Swap-with-last delete; an id out of range deletes nothing. */
  function DeleteRow(rows: seq<Row>, id: nat): seq<Row> {
    if id < |rows| then rows[id := rows[|rows| - 1]][..|rows| - 1] else rows
  }

  /** A primary's table: its whole log, and its contents after each log entry. */
  datatype Table = Table(log: seq<Event>, hist: seq<seq<Row>>) {
    ghost predicate Valid() {
      && |hist| == |log| + 1
      && forall k :: 0 <= k < |log| ==> Follows(log[k], hist[k], hist[k + 1])
    }

    function Rows(): seq<Row>
      requires hist != []
    {
      hist[|hist| - 1]
    }

    function Insert(row: Row): Table
      requires hist != []
    {
      Table(log + [Event(|Rows()|, Ins)], hist + [Rows() + [row]])
    }

    function Delete(id: nat): Table
      requires hist != []
    {
      if id < |Rows()| then Table(log + [Event(id, Del)], hist + [DeleteRow(Rows(), id)]) else this
    }
  }

  ghost predicate Follows(e: Event, before: seq<Row>, after: seq<Row>) {
    match e.op
    case Ins => e.rowId == |before| && |after| == |before| + 1 && after[..|before|] == before
    case Del => e.rowId < |before| && after == DeleteRow(before, e.rowId)
  }

  // ----- The worker -----

  datatype Checkpoint = Missing | Corrupt | Saved(cursors: map<Key, nat>)

  datatype Call = DoInsert(row: Row) | DoDelete(id: nat)

  /** One table's turn in a pass: log entries start .. start + |events|, `pos` of them done. */
  datatype Pass = Pass(t: Key, start: nat, events: seq<Event>, next: nat, pos: nat) {
    predicate More() { pos < |events| }
  }

  datatype Phase =
    | Idle
    | Between(p: Pass)                          // between two events of the window
    | Writing(p: Pass, call: Call, done: nat)   // `done` replicas have been called

  datatype State = State(
    tables: set<Key>,
    primary: map<Key, Table>,
    replicas: seq<map<Key, seq<Row>>>,
    cursors: map<Key, nat>,
    checkpoint: Checkpoint,
    phase: Phase,
    handled: map<Key, set<nat>>,   // log indices whose event was replayed to the end
    dropped: map<Key, set<nat>>)   // log indices the ring had lost before a committed LOG

  datatype Action =
    | ClientInsert(t: Key, row: Row)
    | ClientDelete(t: Key, id: nat)
    | ReadLog(t: Key, ok: bool)
    | ReRead(ok: bool)
    | StartDelete
    | Write(ok: bool)
    | EndEvent
    | Commit
    | Save(ok: bool)
    | Tear
    | Crash

  ghost predicate WellFormed(s: State) {
    && s.primary.Keys == s.tables
    && (forall t :: t in s.tables ==> s.primary[t].Valid())
    && (forall r :: 0 <= r < |s.replicas| ==> s.replicas[r].Keys == s.tables)
    && s.tables <= s.cursors.Keys
    && s.handled.Keys == s.tables
    && s.dropped.Keys == s.tables
    && (forall t :: t in s.tables ==> s.cursors[t] <= |s.primary[t].log|)
    && (s.checkpoint.Saved? ==>
          forall t :: t in s.tables && t in s.checkpoint.cursors ==> s.checkpoint.cursors[t] <= |s.primary[t].log|)
    && (!s.phase.Idle? ==> PassFits(s, s.phase.p))
    && (s.phase.Writing? ==> s.phase.p.More() && s.phase.done <= |s.replicas|)
  }

  ghost predicate PassFits(s: State, p: Pass)
    requires s.primary.Keys == s.tables && s.tables <= s.cursors.Keys
  {
    && p.t in s.tables
    && p.start + |p.events| == p.next <= |s.primary[p.t].log|
    && p.events == s.primary[p.t].log[p.start..p.next]
    && s.cursors[p.t] <= p.start
    && p.pos <= |p.events|
  }

  function Max(a: int, b: int): int { if a < b then b else a }

  /** What LOG with `since` answers: the window the ring still holds, and the new cursor. */
  function Window(tab: Table, since: nat): Pass
    requires since <= |tab.log|
  {
    var start := Max(since, |tab.log| - RING);
    Pass((0, 0), start, tab.log[start..], |tab.log|, 0)
  }

  function Reload(s: State): map<Key, nat> {
    var loaded := if s.checkpoint.Saved? then s.checkpoint.cursors else map[];
    map t | t in s.tables + loaded.Keys :: if t in loaded then loaded[t] else 0
  }

  function Apply(rows: seq<Row>, call: Call): seq<Row> {
    match call
    case DoInsert(row) => rows + [row]
    case DoDelete(id) => DeleteRow(rows, id)
  }

  function Advance(s: State, p: Pass): State
    requires p.t in s.handled
  {
    s.(phase := Between(p.(pos := p.pos + 1)),
       handled := s.handled[p.t := s.handled[p.t] + {p.start + p.pos}])
  }

  function Indices(lo: nat, hi: nat): (r: set<nat>)
    ensures forall k :: k in r <==> lo <= k < hi
    decreases hi - lo
  {
    if lo < hi then {lo} + Indices(lo + 1, hi) else {}
  }

  /** One step; an action that is not enabled in `s` changes nothing. */
  function Step(s: State, a: Action): State
    requires WellFormed(s)
  {
    match a
    case ClientInsert(t, row) =>
      if t in s.tables then s.(primary := s.primary[t := s.primary[t].Insert(row)]) else s
    case ClientDelete(t, id) =>
      if t in s.tables then s.(primary := s.primary[t := s.primary[t].Delete(id)]) else s
    case ReadLog(t, ok) =>
      if s.phase.Idle? && t in s.tables && ok then
        s.(phase := Between(Window(s.primary[t], s.cursors[t]).(t := t)))
      else s
    case ReRead(ok) =>
      if s.phase.Between? && s.phase.p.More() && s.phase.p.events[s.phase.p.pos].op.Ins? then
        var p := s.phase.p;
        var rows := s.primary[p.t].Rows();
        var id := p.events[p.pos].rowId;
        if ok && id < |rows| then s.(phase := Writing(p, DoInsert(rows[id]), 0)) else Advance(s, p)
      else s
    case StartDelete =>
      if s.phase.Between? && s.phase.p.More() && s.phase.p.events[s.phase.p.pos].op.Del? then
        s.(phase := Writing(s.phase.p, DoDelete(s.phase.p.events[s.phase.p.pos].rowId), 0))
      else s
    case Write(ok) =>
      if s.phase.Writing? && s.phase.done < |s.replicas| then
        var r := s.phase.done;
        var t := s.phase.p.t;
        var rep := s.replicas[r];
        s.(phase := s.phase.(done := r + 1),
           replicas := if ok then s.replicas[r := rep[t := Apply(rep[t], s.phase.call)]] else s.replicas)
      else s
    case EndEvent =>
      if s.phase.Writing? && s.phase.done == |s.replicas| then Advance(s, s.phase.p) else s
    case Commit =>
      if s.phase.Between? && !s.phase.p.More() then
        var p := s.phase.p;
        s.(phase := Idle, cursors := s.cursors[p.t := p.next],
           dropped := s.dropped[p.t := s.dropped[p.t] + Indices(s.cursors[p.t], p.start)])
      else s
    case Save(ok) => if ok then s.(checkpoint := Saved(s.cursors)) else s
    case Tear => s.(checkpoint := Corrupt)
    case Crash => s.(phase := Idle, cursors := Reload(s))
  }

  /** `after` is `before` with the row `id` gone, and the last row in its slot unless it was the last itself. */
  ghost predicate SwappedOut(before: seq<Row>, id: nat, after: seq<Row>) {
    && |before| > 0 && |after| == |before| - 1
    && forall k :: 0 <= k < |after| ==> after[k] == before[if k == id then |before| - 1 else k]
  }

  lemma DeleteSwapsLast(rows: seq<Row>, id: nat)
    ensures if id < |rows| then SwappedOut(rows, id, DeleteRow(rows, id)) else DeleteRow(rows, id) == rows
  {
  }

  /** An insert logs the slot it fills, the next one; a delete logs the slot that the last row moves into. */
  lemma TableStep(tab: Table, row: Row, id: nat)
    requires tab.Valid()
    ensures tab.Insert(row).Valid() && tab.Delete(id).Valid()
    ensures tab.log <= tab.Insert(row).log && tab.log <= tab.Delete(id).log
    ensures tab.hist <= tab.Insert(row).hist && tab.hist <= tab.Delete(id).hist
    ensures var rows, after, n := tab.Rows(), tab.Insert(row).Rows(), |tab.log|;
            && |after| == |rows| + 1 && after[|rows|] == row && (forall k :: 0 <= k < |rows| ==> after[k] == rows[k])
            && |tab.Insert(row).log| == n + 1 && tab.Insert(row).log[n] == Event(|rows|, Ins)
    ensures var rows, after, n := tab.Rows(), tab.Delete(id).Rows(), |tab.log|;
            if id < |rows| then
              && SwappedOut(rows, id, after)
              && |tab.Delete(id).log| == n + 1 && tab.Delete(id).log[n] == Event(id, Del)
            else tab.Delete(id) == tab
  {
    DeleteSwapsLast(tab.Rows(), id);
  }

  /** What a replica does with a call: a row more at the end, or one less with the last in its slot. */
  lemma ReplicaStep(rows: seq<Row>, row: Row, id: nat)
    ensures var after := Apply(rows, DoInsert(row));
            |after| == |rows| + 1 && after[|rows|] == row && forall k :: 0 <= k < |rows| ==> after[k] == rows[k]
    ensures var after := Apply(rows, DoDelete(id));
            if id < |rows| then SwappedOut(rows, id, after) else after == rows
  {
    DeleteSwapsLast(rows, id);
  }

  /** LOG answers the entries from the cursor on that are among the last 1024, in order, and the log's length. */
  lemma WindowSays(tab: Table, since: nat)
    requires since <= |tab.log|
    ensures var w := Window(tab, since);
            && w.next == |tab.log| == w.start + |w.events| && w.pos == 0
            && (forall k {:trigger tab.log[k]} :: 0 <= k < |tab.log| ==>
                  && (w.start <= k <==> since <= k && |tab.log| - k <= 1024)
                  && (w.start <= k ==> w.events[k - w.start] == tab.log[k]))
  {
  }

  /** A restart takes the saved cursors; where none is saved, or none can be read, it starts at 0. */
  lemma ReloadSays(s: State, t: Key)
    requires t in s.tables
    ensures t in Reload(s)
    ensures Reload(s)[t] == if s.checkpoint.Saved? && t in s.checkpoint.cursors then s.checkpoint.cursors[t] else 0
  {
  }

  /** A table's history only grows, so what the worker has read of it stays true. */
  lemma GrowthWellFormed(s: State, t: Key, tab: Table)
    requires WellFormed(s) && t in s.tables
    requires tab.Valid() && s.primary[t].log <= tab.log
    ensures WellFormed(s.(primary := s.primary[t := tab]))
  {
    var s' := s.(primary := s.primary[t := tab]);
    if !s.phase.Idle? {
      var p := s.phase.p;
      assert s'.primary[p.t].log[p.start..p.next] == p.events;
    }
  }

  lemma StepWellFormed(s: State, a: Action)
    requires WellFormed(s)
    ensures WellFormed(Step(s, a))
    ensures Step(s, a).tables == s.tables && |Step(s, a).replicas| == |s.replicas|
  {
    match a
    case ClientInsert(t, row) =>
      if t in s.tables {
        TableStep(s.primary[t], row, 0);
        GrowthWellFormed(s, t, s.primary[t].Insert(row));
      }
    case ClientDelete(t, id) =>
      if t in s.tables {
        TableStep(s.primary[t], [], id);
        GrowthWellFormed(s, t, s.primary[t].Delete(id));
      }
    case ReadLog(_, _) => PassWellFormed(s, a);
    case ReRead(_) => EventWellFormed(s, a);
    case StartDelete => EventWellFormed(s, a);
    case Write(_) => WriteWellFormed(s, a);
    case EndEvent => EventWellFormed(s, a);
    case Commit => PassWellFormed(s, a);
    case Save(_) =>
    case Tear =>
    case Crash =>
  }

  lemma PassWellFormed(s: State, a: Action)
    requires WellFormed(s) && (a.ReadLog? || a.Commit?)
    ensures WellFormed(Step(s, a))
    ensures Step(s, a).tables == s.tables && Step(s, a).replicas == s.replicas
  {
  }

  lemma EventWellFormed(s: State, a: Action)
    requires WellFormed(s) && (a.ReRead? || a.StartDelete? || a.EndEvent?)
    ensures WellFormed(Step(s, a))
    ensures Step(s, a).tables == s.tables && Step(s, a).replicas == s.replicas
  {
    hide WellFormed, Step;
    match a
    case ReRead(ok) => ReReadWellFormed(s, ok);
    case StartDelete => StartDeleteWellFormed(s);
    case EndEvent => EndEventWellFormed(s);
  }

  lemma ReReadWellFormed(s: State, ok: bool)
    requires WellFormed(s)
    ensures WellFormed(Step(s, ReRead(ok)))
    ensures Step(s, ReRead(ok)).tables == s.tables && Step(s, ReRead(ok)).replicas == s.replicas
  {
  }

  lemma StartDeleteWellFormed(s: State)
    requires WellFormed(s)
    ensures WellFormed(Step(s, StartDelete))
    ensures Step(s, StartDelete).tables == s.tables && Step(s, StartDelete).replicas == s.replicas
  {
  }

  lemma EndEventWellFormed(s: State)
    requires WellFormed(s)
    ensures WellFormed(Step(s, EndEvent))
    ensures Step(s, EndEvent).tables == s.tables && Step(s, EndEvent).replicas == s.replicas
  {
  }

  lemma WriteWellFormed(s: State, a: Action)
    requires WellFormed(s) && a.Write?
    ensures WellFormed(Step(s, a))
    ensures Step(s, a).tables == s.tables && |Step(s, a).replicas| == |s.replicas|
  {
  }
}
