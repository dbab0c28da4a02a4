/**
 The pipelined TCP transport of the JavaScript adapter: one stream carries replies in request
 order and pushed events, in chunks cut anywhere.
 */
module Transport {
  import opened LineCutting

  datatype Status = Waiting | Done | Failed

  /** A promise: how many replies it asks for, those it has, and whether it has settled. */
  datatype Request = Request(size: nat, out: seq<string>, status: Status)

  /** Waiters name the request their line goes to. */
  datatype Wire = Wire(buf: string, waiters: seq<nat>, requests: seq<Request>, events: seq<string>)

  // ----- What each happening does -----

  ghost predicate Owned(w: Wire) {
    forall i :: 0 <= i < |w.waiters| ==> w.waiters[i] < |w.requests|
  }

  function Accept(r: Request, line: string): Request {
    var out := r.out + [line];
    Request(r.size, out, if |out| == r.size && r.status.Waiting? then Done else r.status)
  }

  function Deliver(w: Wire, line: string): Wire
    requires Owned(w)
  {
    if IsEvent(line) then w.(events := w.events + [line])
    else if w.waiters == [] then w
    else
      var k := w.waiters[0];
      w.(waiters := w.waiters[1..], requests := w.requests[k := Accept(w.requests[k], line)])
  }

  function DeliverAll(w: Wire, lines: seq<string>): (r: Wire)
    requires Owned(w)
    ensures Owned(r) && r.buf == w.buf && |r.requests| == |w.requests|
    decreases lines
  {
    if lines == [] then w else DeliverAll(Deliver(w, lines[0]), lines[1..])
  }

  lemma DeliverOne(w: Wire, line: string, lines: seq<string>)
    requires Owned(w)
    ensures Owned(Deliver(w, line)) && DeliverAll(w, [line] + lines) == DeliverAll(Deliver(w, line), lines)
  {
    assert ([line] + lines)[1..] == lines;
  }

  lemma DeliverNone(w: Wire)
    requires Owned(w)
    ensures DeliverAll(w, []) == w
  {
  }

  function Feed(w: Wire, chunk: string): Wire
    requires Owned(w)
  {
    DeliverAll(w.(buf := Rest(w.buf + chunk)), Lines(w.buf + chunk))
  }

  function Copies(k: nat, n: nat): seq<nat> { seq(n, _ => k) }

  function Issue(w: Wire, size: nat): Wire {
    w.(waiters := w.waiters + Copies(|w.requests|, size), requests := w.requests + [Request(size, [], Waiting)])
  }

  /** A request made without a socket is rejected at once. */
  function Refuse(w: Wire, size: nat): Wire { w.(requests := w.requests + [Request(size, [], Failed)]) }

  function RejectAll(requests: seq<Request>, waiters: seq<nat>): (r: seq<Request>)
    requires forall i :: 0 <= i < |waiters| ==> waiters[i] < |requests|
    ensures |r| == |requests|
    decreases waiters
  {
    if waiters == [] then requests
    else
      var k := waiters[0];
      var q := requests[k];
      RejectAll(requests[k := q.(status := if q.status.Waiting? then Failed else q.status)], waiters[1..])
  }

  function FailAll(w: Wire): Wire
    requires Owned(w)
  {
    w.(waiters := [], requests := RejectAll(w.requests, w.waiters))
  }

  // ----- The object -----

  class TcpTransport {
    var connected: bool
    var buf: string
    var waiters: seq<nat>
    var requests: seq<Request>  // the promises handed out
    var events: seq<string>     // the event lines passed to the listeners
    var sent: string            // what was written to the socket

    constructor ()
      ensures State() == Wire("", [], [], []) && connected && sent == ""
    {
      connected, buf, waiters, requests, events, sent := true, "", [], [], [], "";
    }

    ghost function State(): Wire
      reads this
    {
      Wire(buf, waiters, requests, events)
    }

    method OnData(chunk: string)
      requires Owned(State())
      modifies this`buf, this`waiters, this`requests, this`events
      ensures State() == Feed(old(State()), chunk) && Owned(State())
    {
      hide Lines, Rest, IndexOf, Chomp, DeliverAll, Accept;
      buf := buf + chunk;
      ghost var all := buf;
      ghost var goal := Feed(old(State()), chunk);
      while '\n' in buf
        invariant Owned(State())
        invariant Rest(buf) == Rest(all)
        invariant goal == DeliverAll(State().(buf := Rest(all)), Lines(buf))
        decreases |buf|
      {
        var nl := IndexOf(buf, '\n');
        var line := buf[..nl];
        ghost var before := State();
        OneLine(buf, nl);
        DeliverOne(before.(buf := Rest(all)), Chomp(line), Lines(buf[nl + 1..]));
        buf := buf[nl + 1..];
        line := Chomp(line);
        if IsEvent(line) {
          events := events + [line];
        } else if waiters != [] {
          var k := waiters[0];
          waiters := waiters[1..];
          requests := requests[k := Accept(requests[k], line)];
        }
        assert State().(buf := Rest(all)) == Deliver(before.(buf := Rest(all)), line);
      }
      NoLine(buf);
      DeliverNone(State());
    }

    method RejectWaiters()
      requires Owned(State())
      modifies this`waiters, this`requests
      ensures State() == FailAll(old(State())) && Owned(State())
    {
      var ws := waiters;
      waiters := [];
      var i := 0;
      assert ws[0..] == ws;
      while i < |ws|
        invariant 0 <= i <= |ws| && |requests| == |old(requests)| && waiters == []
        invariant RejectAll(old(requests), ws) == RejectAll(requests, ws[i..])
      {
        var q := requests[ws[i]];
        if q.status.Waiting? {
          requests := requests[ws[i] := q.(status := Failed)];
        }
        assert ws[i..][1..] == ws[i + 1..];
        assert requests == requests[ws[i] := requests[ws[i]]];
        i := i + 1;
      }
      assert ws[|ws|..] == [];
    }

    method Send(cmd: string) returns (request: nat)
      modifies this`waiters, this`requests, this`sent
      ensures request == |old(requests)|
      ensures connected ==> State() == Issue(old(State()), 1) && sent == old(sent) + cmd + "\n"
      ensures !connected ==> State() == Refuse(old(State()), 1) && sent == old(sent)
    {
      request := |requests|;
      if !connected {
        requests := requests + [Request(1, [], Failed)];
        return;
      }
      requests := requests + [Request(1, [], Waiting)];
      waiters := waiters + [request];
      assert [request] == Copies(request, 1);
      sent := sent + cmd + "\n";
    }

    /** An empty batch adds no waiter, writes a bare newline, and is never settled by a reply. */
    method SendBatch(cmds: seq<string>) returns (request: nat)
      modifies this`waiters, this`requests, this`sent
      ensures request == |old(requests)|
      ensures connected ==> State() == Issue(old(State()), |cmds|) && sent == old(sent) + JoinLines(cmds) + "\n"
      ensures !connected ==> State() == Refuse(old(State()), |cmds|) && sent == old(sent)
    {
      request := |requests|;
      if !connected {
        requests := requests + [Request(|cmds|, [], Failed)];
        return;
      }
      requests := requests + [Request(|cmds|, [], Waiting)];
      for i := 0 to |cmds|
        invariant waiters == old(waiters) + Copies(request, i) && sent == old(sent)
        invariant requests == old(requests) + [Request(|cmds|, [], Waiting)]
      {
        waiters := waiters + [request];
        assert Copies(request, i) + [request] == Copies(request, i + 1);
      }
      sent := sent + JoinLines(cmds) + "\n";
    }

    /** Any run of requests, incoming chunks and breaks on an open connection. */
    method Session(acts: seq<Act>)
      requires State() == IDLE && sent == "" && connected
      requires forall i :: 0 <= i < |acts| ==> !acts[i].Refused?
      modifies this
      ensures State() == After(acts) && sent == Written(acts)
    {
      hide Feed, Issue, FailAll, JoinLines;
      assert Owned(IDLE);
      for i := 0 to |acts|
        invariant connected && State() == After(acts[..i]) && sent == Written(acts[..i])
      {
        assert acts[..i + 1][..i] == acts[..i];
        assert Owned(After(acts[..i]));
        match acts[i]
        case Asks(cmds) =>
          if |cmds| == 1 {
            var _ := Send(cmds[0]);
            OneLineBatch(cmds);
          } else {
            var _ := SendBatch(cmds);
          }
        case Arrives(chunk) => OnData(chunk);
        case Breaks => RejectWaiters();
      }
      assert acts[..|acts|] == acts;
    }

    /** From here on requests are refused; those in flight wait for the socket's own "close" event. */
    method Close()
      modifies this`connected
      ensures !connected && State() == old(State())
    {
      connected := false;
    }
  }

  function JoinLines(cmds: seq<string>): string {
    if cmds == [] then "" else if |cmds| == 1 then cmds[0] else cmds[0] + "\n" + JoinLines(cmds[1..])
  }

  lemma OneLineBatch(cmds: seq<string>)
    requires |cmds| == 1
    ensures JoinLines(cmds) == cmds[0]
  {
  }

  // ----- Chunks may be cut anywhere -----

  lemma {:induction false} DeliverConcat(w: Wire, a: seq<string>, b: seq<string>)
    requires Owned(w)
    ensures DeliverAll(w, a + b) == DeliverAll(DeliverAll(w, a), b)
    decreases a
  {
    if a == [] {
      assert a + b == b;
    } else {
      assert (a + b)[1..] == a[1..] + b;
      DeliverConcat(Deliver(w, a[0]), a[1..], b);
    }
  }

  lemma {:induction false} BufferApart(w: Wire, lines: seq<string>, buf: string)
    requires Owned(w)
    ensures DeliverAll(w.(buf := buf), lines) == DeliverAll(w, lines).(buf := buf)
    decreases lines
  {
    if lines != [] {
      BufferApart(Deliver(w, lines[0]), lines[1..], buf);
      assert Deliver(w.(buf := buf), lines[0]) == Deliver(w, lines[0]).(buf := buf);
    }
  }

  /** Two chunks are as good as one: how the stream was cut leaves no trace. */
  lemma ChunksMerge(w: Wire, a: string, b: string)
    requires Owned(w)
    ensures Feed(Feed(w, a), b) == Feed(w, a + b)
  {
    var s := w.buf + a;
    assert w.buf + (a + b) == s + b;
    LinesConcat(s, b);
    var mid := Feed(w, a);
    var rest := Rest(s) + b;
    var end := Rest(s + b);
    DeliverConcat(w.(buf := end), Lines(s), Lines(rest));
    BufferApart(w, Lines(s), end);
    BufferApart(w, Lines(s), Rest(s));
  }

  // ----- Requests and replies meet in order -----

  /** Requests go out, or are refused for want of a socket; chunks come in; the connection breaks. */
  datatype Act = Asks(cmds: seq<string>) | Refused(size: nat) | Arrives(chunk: string) | Breaks

  const IDLE := Wire("", [], [], [])

  function After(acts: seq<Act>): (w: Wire)
    ensures Owned(w)
  {
    if acts == [] then IDLE
    else
      var w := After(acts[..|acts| - 1]);
      match acts[|acts| - 1]
      case Asks(cmds) => Issue(w, |cmds|)
      case Refused(size) => Refuse(w, size)
      case Arrives(chunk) => Feed(w, chunk)
      case Breaks => FailAll(w)
  }

  function Sizes(acts: seq<Act>): seq<nat> {
    if acts == [] then []
    else
      var a := acts[|acts| - 1];
      Sizes(acts[..|acts| - 1]) + if a.Asks? then [|a.cmds|] else []
  }

  function Bytes(acts: seq<Act>): string {
    if acts == [] then ""
    else
      var a := acts[|acts| - 1];
      Bytes(acts[..|acts| - 1]) + if a.Arrives? then a.chunk else ""
  }

  /** Which request each waiter belongs to, in the order the waiters were queued. */
  function Owners(sizes: seq<nat>): seq<nat> {
    if sizes == [] then []
    else Owners(sizes[..|sizes| - 1]) + Copies(|sizes| - 1, sizes[|sizes| - 1])
  }

  /** Where the replies of request `k` begin in the reply stream. */
  function Start(sizes: seq<nat>, k: nat): nat
    requires k <= |sizes|
  {
    if k == 0 then 0 else Start(sizes, k - 1) + sizes[k - 1]
  }

  /** The part of the replies so far that belongs to request `k`. */
  function Share(sizes: seq<nat>, replies: seq<string>, k: nat): seq<string>
    requires k < |sizes|
  {
    Part(replies, Start(sizes, k), sizes[k])
  }

  /** At most `n` replies from position `at` on. */
  function Part(replies: seq<string>, at: nat, n: nat): seq<string> {
    replies[Min(at, |replies|)..Min(at + n, |replies|)]
  }

  function Min(a: nat, b: nat): nat { if a < b then a else b }

  function Settled(sizes: seq<nat>, replies: seq<string>, k: nat): Request
    requires k < |sizes|
  {
    var out := Share(sizes, replies, k);
    Request(sizes[k], out, if |out| == sizes[k] && out != [] then Done else Waiting)
  }

  /** The state that requests of these sizes and these bytes lead to, in whatever order and pieces. */
  function Expected(sizes: seq<nat>, bytes: string): Wire
    requires |Replies(Lines(bytes))| <= Start(sizes, |sizes|)
  {
    OwnersLength(sizes);
    var replies := Replies(Lines(bytes));
    Wire(Rest(bytes), Owners(sizes)[|replies|..],
         seq(|sizes|, (k: int) requires 0 <= k < |sizes| => Settled(sizes, replies, k)),
         Events(Lines(bytes)))
  }

  /** Nothing fails, and no reply line has come in before its request went out. */
  ghost predicate Causal(acts: seq<Act>) {
    && (forall i :: 0 <= i < |acts| ==> acts[i].Asks? || acts[i].Arrives?)
    && forall n :: 0 <= n <= |acts| ==>
      |Replies(Lines(Bytes(acts[..n])))| <= Start(Sizes(acts[..n]), |Sizes(acts[..n])|)
  }

  lemma {:induction false} StartPrefix(sizes: seq<nat>, more: seq<nat>, k: nat)
    requires k <= |sizes|
    ensures Start(sizes + more, k) == Start(sizes, k)
  {
    if k > 0 {
      StartPrefix(sizes, more, k - 1);
    }
  }

  lemma {:induction false} OwnersLength(sizes: seq<nat>)
    ensures |Owners(sizes)| == Start(sizes, |sizes|)
  {
    if sizes != [] {
      var n := |sizes| - 1;
      OwnersLength(sizes[..n]);
      assert sizes == sizes[..n] + [sizes[n]];
      StartPrefix(sizes[..n], [sizes[n]], n);
    }
  }

  /** The waiter at position `i` belongs to the request whose share spans `i`. */
  lemma {:induction false} OwnerAt(sizes: seq<nat>, i: nat)
    requires i < |Owners(sizes)|
    ensures var k := Owners(sizes)[i]; k < |sizes| && Start(sizes, k) <= i < Start(sizes, k) + sizes[k]
  {
    var n := |sizes| - 1;
    var init := sizes[..n];
    assert sizes == init + [sizes[n]];
    OwnersLength(init);
    StartPrefix(init, [sizes[n]], n);
    if i < |Owners(init)| {
      OwnerAt(init, i);
      StartPrefix(init, [sizes[n]], Owners(init)[i]);
    }
  }

  lemma StartNext(sizes: seq<nat>, k: nat)
    requires k < |sizes|
    ensures Start(sizes, k + 1) == Start(sizes, k) + sizes[k]
  {
  }

  lemma {:induction false} StartMonotone(sizes: seq<nat>, j: nat, k: nat)
    requires j <= k <= |sizes|
    ensures Start(sizes, j) <= Start(sizes, k)
  {
    if j < k {
      StartMonotone(sizes, j, k - 1);
    }
  }

  lemma PartGrows(replies: seq<string>, line: string, at: nat, n: nat)
    ensures at <= |replies| < at + n ==>
              Part(replies + [line], at, n) == Part(replies, at, n) + [line] && |Part(replies, at, n)| < n
    ensures !(at <= |replies| < at + n) ==> Part(replies + [line], at, n) == Part(replies, at, n)
  {
    var all := replies + [line];
    if at <= |replies| < at + n {
      assert all[at..|all|] == replies[at..] + [line];
    } else if |replies| < at {
      assert Part(all, at, n) == [] == Part(replies, at, n);
    } else {
      assert all[at..at + n] == replies[at..at + n];
    }
  }

  /** One more reply goes to the request at the head of the queue and to no other. */
  lemma ShareGrows(sizes: seq<nat>, replies: seq<string>, line: string, k: nat)
    requires |replies| < |Owners(sizes)| && k < |sizes|
    ensures Share(sizes, replies + [line], k) ==
              if Owners(sizes)[|replies|] == k then Share(sizes, replies, k) + [line] else Share(sizes, replies, k)
    ensures Owners(sizes)[|replies|] == k ==> |Share(sizes, replies, k)| < sizes[k]
  {
    hide Owners, Start, Part;
    var i := |replies|;
    PartGrows(replies, line, Start(sizes, k), sizes[k]);
    OwnerAt(sizes, i);
    var o := Owners(sizes)[i];
    if o < k {
      StartNext(sizes, o);
      StartMonotone(sizes, o + 1, k);
    } else if k < o {
      StartNext(sizes, k);
      StartMonotone(sizes, k + 1, o);
    }
  }

  /** The expected state with the lines given one by one instead of as bytes. */
  function Given(sizes: seq<nat>, lines: seq<string>, buf: string): Wire
    requires |Replies(lines)| <= Start(sizes, |sizes|)
  {
    OwnersLength(sizes);
    var replies := Replies(lines);
    Wire(buf, Owners(sizes)[|replies|..],
         seq(|sizes|, (k: int) requires 0 <= k < |sizes| => Settled(sizes, replies, k)),
         Events(lines))
  }

  lemma GivenOwned(sizes: seq<nat>, lines: seq<string>, buf: string)
    requires |Replies(lines)| <= Start(sizes, |sizes|)
    ensures Owned(Given(sizes, lines, buf))
  {
    OwnersLength(sizes);
    forall i | 0 <= i < |Owners(sizes)|
      ensures Owners(sizes)[i] < |sizes|
    {
      OwnerAt(sizes, i);
    }
  }

  lemma GivenStep(sizes: seq<nat>, lines: seq<string>, line: string, buf: string)
    requires |Replies(lines + [line])| <= Start(sizes, |sizes|)
    ensures |Replies(lines)| <= Start(sizes, |sizes|) && Owned(Given(sizes, lines, buf))
    ensures Deliver(Given(sizes, lines, buf), line) == Given(sizes, lines + [line], buf)
  {
    hide Owners, Start, Lines, Share;
    SortedConcat(lines, [line]);
    GivenOwned(sizes, lines, buf);
    OwnersLength(sizes);
    var replies := Replies(lines);
    assert Replies([line]) == (if IsEvent(line) then [] else [line]) + Replies([]);
    assert Events([line]) == (if IsEvent(line) then [line] else []) + Events([]);
    var w := Given(sizes, lines, buf);
    var w' := Given(sizes, lines + [line], buf);
    if IsEvent(line) {
      assert Replies(lines + [line]) == replies;
    } else {
      assert Replies(lines + [line]) == replies + [line] && Events(lines + [line]) == Events(lines);
      OwnerAt(sizes, |replies|);
      var o := Owners(sizes)[|replies|];
      assert w.waiters[0] == o && w.waiters[1..] == w'.waiters;
      forall k | 0 <= k < |sizes|
        ensures w'.requests[k] == if k == o then Accept(w.requests[k], line) else w.requests[k]
      {
        ShareGrows(sizes, replies, line, k);
      }
      assert Deliver(w, line).requests == w'.requests;
    }
  }

  lemma {:induction false} GivenAll(sizes: seq<nat>, lines: seq<string>, more: seq<string>, buf: string)
    requires |Replies(lines + more)| <= Start(sizes, |sizes|)
    ensures |Replies(lines)| <= Start(sizes, |sizes|) && Owned(Given(sizes, lines, buf))
    ensures DeliverAll(Given(sizes, lines, buf), more) == Given(sizes, lines + more, buf)
    decreases more
  {
    SortedConcat(lines, more);
    GivenOwned(sizes, lines, buf);
    if more == [] {
      assert lines + more == lines;
    } else {
      assert lines + [more[0]] + more[1..] == lines + more;
      SortedConcat(lines + [more[0]], more[1..]);
      GivenStep(sizes, lines, more[0], buf);
      GivenAll(sizes, lines + [more[0]], more[1..], buf);
    }
  }

  lemma FeedExpected(sizes: seq<nat>, bytes: string, chunk: string)
    requires |Replies(Lines(bytes + chunk))| <= Start(sizes, |sizes|)
    ensures |Replies(Lines(bytes))| <= Start(sizes, |sizes|) && Owned(Expected(sizes, bytes))
    ensures Feed(Expected(sizes, bytes), chunk) == Expected(sizes, bytes + chunk)
  {
    LinesConcat(bytes, chunk);
    var lines, more := Lines(bytes), Lines(Rest(bytes) + chunk);
    SortedConcat(lines, more);
    GivenAll(sizes, lines, more, Rest(bytes + chunk));
    assert Expected(sizes, bytes) == Given(sizes, lines, Rest(bytes));
    assert Expected(sizes, bytes + chunk) == Given(sizes, lines + more, Rest(bytes + chunk));
    assert Given(sizes, lines, Rest(bytes)).(buf := Rest(bytes + chunk)) == Given(sizes, lines, Rest(bytes + chunk));
  }

  lemma IssueExpected(sizes: seq<nat>, bytes: string, size: nat)
    requires |Replies(Lines(bytes))| <= Start(sizes, |sizes|)
    ensures |Replies(Lines(bytes))| <= Start(sizes + [size], |sizes| + 1)
    ensures Issue(Expected(sizes, bytes), size) == Expected(sizes + [size], bytes)
  {
    var all := sizes + [size];
    var replies := Replies(Lines(bytes));
    assert all[..|sizes|] == sizes;
    StartPrefix(sizes, [size], |sizes|);
    OwnersLength(sizes);
    OwnersLength(all);
    var w := Issue(Expected(sizes, bytes), size);
    var e := Expected(all, bytes);
    assert w.waiters == e.waiters;
    forall k | 0 <= k < |all|
      ensures w.requests[k] == e.requests[k]
    {
      StartPrefix(sizes, [size], k);
    }
    assert w.requests == e.requests;
  }

  lemma NothingYet()
    ensures Lines("") == [] && Replies([]) == [] && Start([], 0) == 0 && Expected([], "") == IDLE
  {
  }

  lemma CausalParts(acts: seq<Act>)
    requires Causal(acts)
    ensures |Replies(Lines(Bytes(acts)))| <= Start(Sizes(acts), |Sizes(acts)|)
    ensures acts != [] ==> Causal(acts[..|acts| - 1]) && (acts[|acts| - 1].Asks? || acts[|acts| - 1].Arrives?)
  {
    hide Lines, Replies, Start, Bytes, Sizes;
    assert acts[..|acts|] == acts;
    if acts != [] {
      var n := |acts| - 1;
      assert forall m :: 0 <= m <= n ==> acts[..n][..m] == acts[..m];
    }
  }

  /**
   Framing and matching. In every run in which no reply overtakes its request, the events
   delivered, the replies each request has, the waiters still queued and the bytes still buffered
   are a function of the request sizes and the concatenated bytes alone.
   */
  lemma {:induction false} RunIsExpected(acts: seq<Act>)
    requires Causal(acts)
    ensures |Replies(Lines(Bytes(acts)))| <= Start(Sizes(acts), |Sizes(acts)|)
    ensures After(acts) == Expected(Sizes(acts), Bytes(acts))
  {
    hide Feed, Issue, Rest, Events, Share, Owners, Settled;
    CausalParts(acts);
    if acts == [] {
      NothingYet();
    } else {
      hide Lines, Replies, Start, Expected, Causal;
      var n := |acts| - 1;
      RunIsExpected(acts[..n]);
      var sizes, bytes := Sizes(acts[..n]), Bytes(acts[..n]);
      match acts[n]
      case Asks(cmds) =>
        IssueExpected(sizes, bytes, |cmds|);
        assert bytes + "" == bytes;
      case Arrives(chunk) =>
        assert sizes + [] == sizes;
        FeedExpected(sizes, bytes, chunk);
    }
  }

  /** A request settles exactly when its last reply is in, with its own replies in order; an empty batch never does. */
  lemma RequestSettles(acts: seq<Act>, k: nat)
    requires Causal(acts) && k < |Sizes(acts)|
    ensures k < |After(acts).requests|
    ensures var sizes := Sizes(acts);
            var replies := Replies(Lines(Bytes(acts)));
            var q := After(acts).requests[k];
            && (q.status.Done? <==> 0 < sizes[k] && Start(sizes, k) + sizes[k] <= |replies|)
            && (q.status.Done? ==> q.out == replies[Start(sizes, k)..Start(sizes, k) + sizes[k]])
            && !q.status.Failed?
  {
    hide After, Lines, Replies, Start, Sizes, Bytes;
    assert acts[..|acts|] == acts;
    RunIsExpected(acts);
    var sizes := Sizes(acts);
    var replies := Replies(Lines(Bytes(acts)));
    assert After(acts).requests[k] == Settled(sizes, replies, k);
  }

  // ----- What was asked meets what is answered -----

  /** The commands of each request, in the order of the requests. */
  function Batches(acts: seq<Act>): seq<seq<string>> {
    if acts == [] then []
    else
      var a := acts[|acts| - 1];
      Batches(acts[..|acts| - 1]) + if a.Asks? then [a.cmds] else []
  }

  /** What all requests write to the socket. */
  function Written(acts: seq<Act>): string {
    if acts == [] then ""
    else
      var a := acts[|acts| - 1];
      Written(acts[..|acts| - 1]) + if a.Asks? then JoinLines(a.cmds) + "\n" else ""
  }

  /** A command is one line: no newline in it, and no CR at its end that the line's end would take with it. */
  predicate OneCommand(cmd: string) { '\n' !in cmd && (cmd != "" ==> cmd[|cmd| - 1] != '\r') }

  ghost predicate AllCommands(cmds: seq<string>) { forall i :: 0 <= i < |cmds| ==> OneCommand(cmds[i]) }

  ghost predicate AllBatches(batches: seq<seq<string>>) {
    forall k :: 0 <= k < |batches| ==> batches[k] != [] && AllCommands(batches[k])
  }

  /** All commands in the order of their requests. */
  function Flat(batches: seq<seq<string>>): seq<string> {
    if batches == [] then [] else Flat(batches[..|batches| - 1]) + batches[|batches| - 1]
  }

  function SizesOf(batches: seq<seq<string>>): seq<nat> {
    seq(|batches|, i requires 0 <= i < |batches| => |batches[i]|)
  }

  lemma JoinStep(cmds: seq<string>, rest: string)
    requires |cmds| > 1
    ensures JoinLines(cmds) + "\n" + rest == cmds[0] + "\n" + (JoinLines(cmds[1..]) + "\n" + rest)
  {
  }

  /** The lines of a batch as it is written are its commands, in order. */
  lemma {:induction false} BatchLines(cmds: seq<string>, rest: string)
    requires cmds != [] && AllCommands(cmds)
    ensures Lines(JoinLines(cmds) + "\n" + rest) == cmds + Lines(rest)
  {
    hide *;
    FirstCommand(cmds);
    if |cmds| == 1 {
      OneLineBatch(cmds);
      CommandLine(cmds[0], rest);
    } else {
      JoinStep(cmds, rest);
      CommandLine(cmds[0], JoinLines(cmds[1..]) + "\n" + rest);
      BatchLines(cmds[1..], rest);
      FrontOf(cmds, Lines(rest));
    }
  }

  lemma FirstCommand(cmds: seq<string>)
    requires cmds != [] && AllCommands(cmds)
    ensures OneCommand(cmds[0]) && AllCommands(cmds[1..]) && (|cmds| == 1 ==> cmds == [cmds[0]])
  {
  }

  lemma FrontOf(cmds: seq<string>, more: seq<string>)
    requires cmds != []
    ensures [cmds[0]] + (cmds[1..] + more) == cmds + more
  {
  }

  lemma CommandLine(cmd: string, rest: string)
    requires OneCommand(cmd)
    ensures Lines(cmd + "\n" + rest) == [cmd] + Lines(rest)
  {
    hide Lines;
    LineFirst(cmd, rest);
  }

  lemma WrittenStep(acts: seq<Act>)
    requires acts != []
    ensures var a, before := acts[|acts| - 1], acts[..|acts| - 1];
            && Written(acts) == (if a.Asks? then Written(before) + (JoinLines(a.cmds) + "\n") else Written(before))
            && Batches(acts) == (if a.Asks? then Batches(before) + [a.cmds] else Batches(before))
            && Sizes(acts) == (if a.Asks? then Sizes(before) + [|a.cmds|] else Sizes(before))
  {
    hide JoinLines;
  }

  /** Every request's text ends its line. */
  lemma {:induction false} WrittenEnds(acts: seq<Act>)
    ensures Rest(Written(acts)) == ""
  {
    if acts != [] {
      var n := |acts| - 1;
      WrittenEnds(acts[..n]);
      WrittenStep(acts);
      hide Rest, Lines, JoinLines, Written;
      if acts[n].Asks? {
        var text := JoinLines(acts[n].cmds);
        LinesConcat(Written(acts[..n]), text + "\n");
        LinesConcat(text, "\n");
        LineFirst(Rest(text), "");
        NoLine("");
        assert "" + (text + "\n") == text + "\n" && Rest(text) + "\n" + "" == Rest(text) + "\n";
      }
    }
  }

  /** The lines written are the commands asked for, in order, each once. */
  lemma {:induction false} LinesWritten(acts: seq<Act>)
    requires AllBatches(Batches(acts))
    ensures Lines(Written(acts)) == Flat(Batches(acts))
  {
    if acts != [] {
      var n := |acts| - 1;
      var before := acts[..n];
      WrittenStep(acts);
      WrittenEnds(before);
      LastBatch(before, acts[n]);
      hide Rest, Lines, JoinLines, Written, Batches, AllBatches, AllCommands, Flat;
      LinesWritten(before);
      if acts[n].Asks? {
        var text := JoinLines(acts[n].cmds) + "\n";
        LinesConcat(Written(before), text);
        BatchLines(acts[n].cmds, "");
        NoLine("");
        assert "" + text == text && text + "" == text && acts[n].cmds + [] == acts[n].cmds;
      }
    } else {
      NoLine("");
    }
  }

  lemma LastBatch(before: seq<Act>, a: Act)
    ensures var b := Batches(before) + [if a.Asks? then a.cmds else []];
            && (AllBatches(b) ==> AllBatches(Batches(before)) && (a.Asks? ==> a.cmds != [] && AllCommands(a.cmds)))
            && (a.Asks? ==> Flat(b) == Flat(Batches(before)) + a.cmds)
  {
    var b := Batches(before) + [if a.Asks? then a.cmds else []];
    var m := |Batches(before)|;
    assert b[m] == (if a.Asks? then a.cmds else []) && b[..m] == Batches(before);
    forall k | 0 <= k < m
      ensures b[k] == Batches(before)[k]
    {
    }
  }

  lemma {:induction false} BatchSizes(acts: seq<Act>)
    ensures Sizes(acts) == SizesOf(Batches(acts))
  {
    if acts != [] {
      BatchSizes(acts[..|acts| - 1]);
      WrittenStep(acts);
    }
  }

  /** Where each request's commands stand among all of them. */
  lemma {:induction false} FlatAt(batches: seq<seq<string>>, k: nat, j: nat)
    requires k < |batches| && j < |batches[k]|
    ensures |SizesOf(batches)| == |batches| && |Flat(batches)| == Start(SizesOf(batches), |batches|)
    ensures Start(SizesOf(batches), k) + j < |Flat(batches)|
    ensures Flat(batches)[Start(SizesOf(batches), k) + j] == batches[k][j]
  {
    var m := |batches| - 1;
    var init := batches[..m];
    assert SizesOf(batches) == SizesOf(init) + [|batches[m]|];
    StartPrefix(SizesOf(init), [|batches[m]|], m);
    StartPrefix(SizesOf(init), [|batches[m]|], if k < m then k else m);
    FlatLength(init);
    if k < m {
      FlatAt(init, k, j);
    }
  }

  lemma {:induction false} FlatLength(batches: seq<seq<string>>)
    ensures |Flat(batches)| == Start(SizesOf(batches), |batches|)
  {
    if batches != [] {
      var m := |batches| - 1;
      FlatLength(batches[..m]);
      assert SizesOf(batches) == SizesOf(batches[..m]) + [|batches[m]|];
      StartPrefix(SizesOf(batches[..m]), [|batches[m]|], m);
    }
  }

  /**
   The line protocol, end to end. In every causal run, a request that has settled was given the replies
   that stand in the reply stream where its commands stand among the lines written: the reply to each
   command is the one that the server sent for that line.
   */
  lemma AnswersMeetCommands(acts: seq<Act>, k: nat, j: nat)
    requires Causal(acts) && AllBatches(Batches(acts)) && k < |Batches(acts)| && j < |Batches(acts)[k]|
    ensures k < |After(acts).requests| && k < |Sizes(acts)|
    ensures var i, q := Start(Sizes(acts), k) + j, After(acts).requests[k];
            && i < |Lines(Written(acts))| && Lines(Written(acts))[i] == Batches(acts)[k][j]
            && (q.status.Done? ==>
                  && |q.out| == |Batches(acts)[k]| && i < |Replies(Lines(Bytes(acts)))|
                  && q.out[j] == Replies(Lines(Bytes(acts)))[i])
  {
    LinesWritten(acts);
    BatchSizes(acts);
    FlatAt(Batches(acts), k, j);
    SizeAt(Batches(acts), k);
    hide *;
    RequestSettles(acts, k);
    var at, size, replies := Start(Sizes(acts), k), Sizes(acts)[k], Replies(Lines(Bytes(acts)));
    assert at + size <= |replies| ==> replies[at..at + size][j] == replies[at + j];
  }

  lemma SizeAt(batches: seq<seq<string>>, k: nat)
    requires k < |batches|
    ensures |SizesOf(batches)| == |batches| && SizesOf(batches)[k] == |batches[k]|
  {
  }

  // ----- Nothing is lost or settled twice -----

  ghost function Queued(w: Wire, k: nat): nat { multiset(w.waiters)[k] }

  /** Replies had and replies awaited make up the request, until it settles one way. */
  ghost predicate Balanced(w: Wire, k: nat)
    requires k < |w.requests|
  {
    var q := w.requests[k];
    match q.status
    case Waiting => |q.out| + Queued(w, k) == q.size && (q.size > 0 ==> |q.out| < q.size)
    case Done => |q.out| == q.size > 0 && Queued(w, k) == 0
    case Failed => Queued(w, k) == 0
  }

  ghost predicate AllBalanced(w: Wire) {
    Owned(w) && forall k :: 0 <= k < |w.requests| ==> Balanced(w, k)
  }

  lemma DeliverBalanced(w: Wire, line: string)
    requires AllBalanced(w)
    ensures AllBalanced(Deliver(w, line))
  {
    var w' := Deliver(w, line);
    assert w.waiters != [] ==> w.waiters == [w.waiters[0]] + w.waiters[1..];
    forall k | 0 <= k < |w'.requests|
      ensures Balanced(w', k)
    {
      assert Balanced(w, k);
      if !IsEvent(line) && w.waiters != [] {
        assert Queued(w, k) == Queued(w', k) + if k == w.waiters[0] then 1 else 0;
      }
    }
  }

  lemma {:induction false} DeliverAllBalanced(w: Wire, lines: seq<string>)
    requires AllBalanced(w)
    ensures AllBalanced(DeliverAll(w, lines))
    decreases lines
  {
    if lines != [] {
      DeliverBalanced(w, lines[0]);
      DeliverAllBalanced(Deliver(w, lines[0]), lines[1..]);
    }
  }

  lemma CopiesCount(k: nat, n: nat, j: nat)
    ensures multiset(Copies(k, n))[j] == if j == k then n else 0
    decreases n
  {
    if n > 0 {
      assert Copies(k, n) == Copies(k, n - 1) + [k];
      CopiesCount(k, n - 1, j);
    }
  }

  lemma IssueBalanced(w: Wire, size: nat)
    requires AllBalanced(w)
    ensures AllBalanced(Issue(w, size))
  {
    var w' := Issue(w, size);
    var n := |w.requests|;
    assert n !in w.waiters;
    forall k | 0 <= k < |w'.requests|
      ensures Balanced(w', k)
    {
      CopiesCount(n, size, k);
      assert k < n ==> Balanced(w, k);
    }
  }

  /** Rejecting marks exactly the requests still waiting that have a waiter in the queue. */
  lemma {:induction false} RejectMarks(requests: seq<Request>, waiters: seq<nat>, k: nat)
    requires (forall i :: 0 <= i < |waiters| ==> waiters[i] < |requests|) && k < |requests|
    ensures RejectAll(requests, waiters)[k] ==
              if k in waiters && requests[k].status.Waiting? then requests[k].(status := Failed) else requests[k]
    decreases waiters
  {
    if waiters != [] {
      var o := waiters[0];
      var q := requests[o];
      RejectMarks(requests[o := q.(status := if q.status.Waiting? then Failed else q.status)], waiters[1..], k);
    }
  }

  lemma FailBalanced(w: Wire)
    requires AllBalanced(w)
    ensures AllBalanced(FailAll(w))
    ensures forall k :: 0 <= k < |w.requests| && w.requests[k].size > 0 ==> !FailAll(w).requests[k].status.Waiting?
  {
    forall k | 0 <= k < |w.requests|
      ensures Balanced(FailAll(w), k)
      ensures FailAll(w).requests[k].status.Waiting? ==> w.requests[k].size == 0
    {
      assert Balanced(w, k);
      RejectMarks(w.requests, w.waiters, k);
    }
  }

  /**
   Conservation. In every run - replies nobody waits for, broken connections and refused requests
   included - each request's replies are received, queued for, or given up with the whole request.
   */
  lemma {:induction false} RunBalanced(acts: seq<Act>)
    ensures AllBalanced(After(acts))
  {
    if acts != [] {
      var n := |acts| - 1;
      RunBalanced(acts[..n]);
      var w := After(acts[..n]);
      match acts[n]
      case Asks(cmds) => IssueBalanced(w, |cmds|);
      case Refused(size) => RefusedBalanced(w, size);
      case Arrives(chunk) =>
        BufferBalanced(w, Rest(w.buf + chunk));
        DeliverAllBalanced(w.(buf := Rest(w.buf + chunk)), Lines(w.buf + chunk));
      case Breaks => FailBalanced(w);
    }
  }

  lemma BufferBalanced(w: Wire, buf: string)
    requires AllBalanced(w)
    ensures AllBalanced(w.(buf := buf))
  {
    forall k | 0 <= k < |w.requests|
      ensures Balanced(w.(buf := buf), k)
    {
      assert Balanced(w, k);
    }
  }

  lemma RefusedBalanced(w: Wire, size: nat)
    requires AllBalanced(w)
    ensures AllBalanced(Refuse(w, size))
  {
    assert |w.requests| !in w.waiters;
    forall k | 0 <= k < |w.requests|
      ensures Balanced(Refuse(w, size), k)
    {
      assert Balanced(w, k);
    }
  }
}
