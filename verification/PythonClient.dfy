/**
 The Python client's end of the stream: a buffer in front of a blocking socket, a queue of
 pending events, and three ways of reading - replies, events and raw payloads.
 */
module PythonClient {
  import opened LineCutting

  /** `line.rstrip(b"\r")`: every trailing CR goes. */
  function RStrip(line: string): string {
    if line != "" && line[|line| - 1] == '\r' then RStrip(line[..|line| - 1]) else line
  }

  /** No line of the stream ends in more than the one CR of its CRLF. */
  ghost predicate Clean(s: string) {
    forall i :: 0 <= i && i + 2 < |s| && s[i] == '\r' && s[i + 1] == '\r' ==> s[i + 2] != '\n'
  }

  /** Lines up to the CRs at their ends. */
  function Strip(lines: seq<string>): (r: seq<string>)
    ensures |r| == |lines|
  {
    if lines == [] then [] else [RStrip(lines[0])] + Strip(lines[1..])
  }

  predicate Succeeded(reply: string) { "+OK" <= reply }

  datatype Outcome = Answer(reply: string) | Raised(reply: string) | Closed

  /** What a caller may do with the connection, in any order. */
  datatype Use = DoSend | DoSendBatch(n: nat) | DoPoll(blocks: bool)

  // ----- The header of a binary answer -----

  datatype Binary = Got(payload: string) | Refused(header: string) | Lost

  datatype Number = NotANumber | Number(n: int)

  predicate IsSpace(c: char) { c == ' ' || c == '\t' || c == '\n' || c == '\r' || c == 11 as char || c == 12 as char }

  /** `bytes.split()`: what stands between runs of white space; `word` is begun. */
  function Words(s: string, word: string): seq<string> {
    var done := if word == "" then [] else [word];
    if s == "" then done
    else if IsSpace(s[0]) then done + Words(s[1..], "")
    else Words(s[1..], word + [s[0]])
  }

  /** The header of an answer with this many rows and columns, as `int` reads the numbers. */
  predicate Announces(tag: string, header: string, rows: nat, cols: nat, number: string -> Number) {
    && !("-ERR" <= header) && tag <= header
    && var parts := Words(header[|tag|..], "");
       |parts| == 2 && number(parts[0]) == Number(rows) && number(parts[1]) == Number(cols)
  }

  class Client {
    var buf: string
    var pending: seq<string>
    var incoming: string   // what the server will have sent, not yet received
    var cuts: seq<nat>     // how much each recv may hand over before the connection ends; 0 is an idle one

    constructor (incoming: string, cuts: seq<nat>)
      ensures Stream() == incoming && pending == [] && this.cuts == cuts
    {
      buf, pending, this.incoming, this.cuts := "", [], incoming, cuts;
    }

    /** All bytes the client has not consumed yet. */
    ghost function Stream(): string
      reads this
    {
      buf + incoming
    }

    /** Events the caller has still to be given, and replies still to be read, both in order. */
    ghost function EventsLeft(): seq<string>
      reads this
    {
      pending + Events(Lines(Stream()))
    }

    ghost function RepliesLeft(): seq<string>
      reads this
    {
      Replies(Lines(Stream()))
    }

    /** The connection hands over something at every call until all has come. */
    predicate Patient()
      reads this
    {
      |cuts| >= |incoming| && forall i :: 0 <= i < |cuts| ==> cuts[i] > 0
    }

    /** `idle`: nothing came in time. An empty chunk is otherwise the connection's end. */
    method Recv(max: nat) returns (chunk: string, idle: bool)
      modifies this`incoming, this`cuts
      ensures idle <==> old(cuts) != [] && max > 0 && (old(cuts)[0] == 0 || old(incoming) == "")
      ensures idle ==> chunk == ""
      ensures chunk + incoming == old(incoming) && |chunk| <= max
      ensures old(Patient()) && max > 0 ==> Patient() && (chunk == "" <==> old(incoming) == "")
    {
      if cuts == [] {
        return "", false;
      }
      var n := Min(Min(cuts[0], max), |incoming|);
      idle := n == 0 && max > 0;
      cuts := cuts[1..];
      chunk := incoming[..n];
      incoming := incoming[n..];
    }

    /** One line; a closed connection leaves the stream as it was. */
    method ReadLine() returns (ok: bool, line: string)
      modifies this`buf, this`incoming, this`cuts
      ensures !ok ==> Stream() == old(Stream())
      ensures ok ==>
                var s := old(Stream());
                '\n' in s && line == Chomp(s[..IndexOf(s, '\n')]) && Stream() == s[IndexOf(s, '\n') + 1..]
      ensures old(Clean(Stream())) ==> Clean(Stream())
      ensures old(Patient()) ==> Patient() && (ok <==> '\n' in old(Stream()))
    {
      ghost var s := Stream();
      while '\n' !in buf
        invariant Stream() == s && (old(Patient()) ==> Patient())
        decreases |incoming|
      {
        var chunk, _ := Recv(8192);
        if chunk == "" {
          return false, "";
        }
        ghost var was := buf;
        buf := buf + chunk;
        assert was + (chunk + incoming) == buf + incoming;
      }
      var idx := IndexOf(buf, '\n');
      IndexOfPrefix(buf, incoming, '\n');
      assert s[..idx] == buf[..idx] && s[idx + 1..] == buf[idx + 1..] + incoming;
      line := buf[..idx];
      buf := buf[idx + 1..];
      ok, line := true, Chomp(line);
      CleanSuffix(s, idx + 1);
    }

    /** The next reply; events met on the way are queued. */
    method ReadResponse() returns (ok: bool, line: string)
      modifies this`buf, this`incoming, this`cuts, this`pending
      ensures EventsLeft() == old(EventsLeft())
      ensures ok ==> old(RepliesLeft()) == [line] + RepliesLeft()
      ensures !ok ==> RepliesLeft() == old(RepliesLeft())
      ensures |Stream()| <= |old(Stream())|
      ensures old(Patient()) ==> Patient() && (ok <==> old(RepliesLeft()) != [])
      ensures old(Clean(Stream())) ==> Clean(Stream())
    {
      hide Lines, Events, Replies, IndexOf, Chomp, Clean;
      while true
        invariant old(Patient()) ==> Patient()
        invariant EventsLeft() == old(EventsLeft()) && RepliesLeft() == old(RepliesLeft())
        invariant old(Clean(Stream())) ==> Clean(Stream())
        invariant |Stream()| <= |old(Stream())|
        decreases |Stream()|
      {
        ghost var s, queue := Stream(), pending;
        ok, line := ReadLine();
        if !ok {
          if '\n' !in s {
            NothingLeft(s);
          }
          return;
        }
        TakeLine(s);
        if IsEvent(line) {
          pending := pending + [line];
          assert queue + ([line] + Events(Lines(Stream()))) == pending + Events(Lines(Stream()));
        } else {
          return;
        }
      }
    }

    /** `send`: a reply that is not +OK is consumed like any other, then raised. */
    method Send() returns (outcome: Outcome)
      modifies this`buf, this`incoming, this`cuts, this`pending
      ensures EventsLeft() == old(EventsLeft())
      ensures match outcome
              case Answer(reply) => "+OK" <= reply && old(RepliesLeft()) == [reply] + RepliesLeft()
              case Raised(reply) => !("+OK" <= reply) && old(RepliesLeft()) == [reply] + RepliesLeft()
              case Closed => RepliesLeft() == old(RepliesLeft())
      ensures old(Patient()) ==> Patient() && (outcome.Closed? <==> old(RepliesLeft()) == [])
      ensures old(Clean(Stream())) ==> Clean(Stream())
    {
      var ok, reply := ReadResponse();
      outcome := if !ok then Closed else if Succeeded(reply) then Answer(reply) else Raised(reply);
    }

    /** A pipelined batch stops reading at the first error, leaving the rest of its replies unread. */
    method SendBatch(n: nat) returns (closed: bool, replies: seq<string>)
      modifies this`buf, this`incoming, this`cuts, this`pending
      ensures EventsLeft() == old(EventsLeft())
      ensures old(RepliesLeft()) == replies + RepliesLeft()
      ensures |replies| <= n
      ensures forall i :: 0 <= i < |replies| - 1 ==> "+OK" <= replies[i]
      ensures !closed && |replies| < n ==> replies != [] && !("+OK" <= replies[|replies| - 1])
      ensures old(Patient()) ==> Patient() && (closed ==> RepliesLeft() == [] && |replies| < n)
      ensures old(Clean(Stream())) ==> Clean(Stream())
    {
      hide Clean;
      replies := [];
      for i := 0 to n
        invariant old(Patient()) ==> Patient()
        invariant old(Clean(Stream())) ==> Clean(Stream())
        invariant |replies| == i && EventsLeft() == old(EventsLeft())
        invariant old(RepliesLeft()) == replies + RepliesLeft()
        invariant forall j :: 0 <= j < i ==> Succeeded(replies[j])
      {
        ghost var before := RepliesLeft();
        var ok, line := ReadResponse();
        if !ok {
          return true, replies;
        }
        assert replies + ([line] + RepliesLeft()) == replies + [line] + RepliesLeft();
        replies := replies + [line];
        if !Succeeded(line) {
          return false, replies;
        }
      }
      closed := false;
    }

    /**
     Events already queued, or else those that arrive; a reply line met on the way is put back. Nothing
     is lost but CRs at the ends of lines, and on a clean stream not even those. With timeout 0 the socket
     does not block, and `recv` on an idle connection raises an error that the method does not catch.
     */
    method PollEvents(blocks: bool) returns (events: seq<string>, raised: bool)
      modifies this`buf, this`incoming, this`cuts, this`pending
      ensures raised ==> !blocks && events == [] && old(pending) == []
      ensures !blocks && old(pending) == [] && old(cuts) != [] && (old(cuts)[0] == 0 || old(incoming) == "") ==>
                raised && Stream() == old(Stream())
      ensures Strip(old(EventsLeft())) == Strip(events + EventsLeft())
      ensures Strip(RepliesLeft()) == Strip(old(RepliesLeft()))
      ensures old(Clean(Stream())) ==>
                Clean(Stream()) && old(EventsLeft()) == events + EventsLeft() && RepliesLeft() == old(RepliesLeft())
    {
      hide Lines, Events, Replies, IndexOf, Chomp, RStrip, Clean, Strip;
      events, raised := pending, false;
      pending := [];
      if events != [] {
        assert [] + Events(Lines(Stream())) == Events(Lines(Stream()));
        return;
      }
      ghost var first := Stream();
      ghost var all := Events(Lines(first));
      assert old(EventsLeft()) == [] + all == all;
      StripConcat([], all);
      while true
        invariant pending == [] && events == [] && Polled(first, events, Stream())
        invariant !blocks && old(cuts) != [] && (old(cuts)[0] == 0 || old(incoming) == "") ==>
                    cuts == old(cuts) && incoming == old(incoming) && buf == old(buf)
        decreases |incoming|
      {
        ghost var was := buf;
        var chunk, idle := Recv(8192);
        if chunk == "" {
          raised := idle && !blocks;
          assert "" + incoming == incoming;
          break;
        }
        buf := buf + chunk;
        assert was + (chunk + incoming) == buf + incoming;
        ghost var ahead := incoming;
        while '\n' in buf
          invariant pending == [] && incoming == ahead && Polled(first, events, Stream())
          decreases |buf|
        {
          ghost var s := Stream();
          var idx := IndexOf(buf, '\n');
          IndexOfPrefix(buf, incoming, '\n');
          assert s[..idx] == buf[..idx] && s[idx + 1..] == buf[idx + 1..] + incoming;
          PollStep(first, events, s);
          var line := RStrip(buf[..idx]);
          buf := buf[idx + 1..];
          if IsEvent(line) {
            events := events + [line];
          } else {
            assert line + "\n" + Stream() == (line + "\n" + buf) + incoming;
            buf := line + "\n" + buf;
            PollEnd(first, events, Stream());
            assert [] + Events(Lines(Stream())) == Events(Lines(Stream()));
            return;
          }
        }
        if events != [] {
          break;
        }
      }
      PollEnd(first, events, Stream());
      assert [] + Events(Lines(Stream())) == Events(Lines(Stream()));
    }

    /** Any interleaving of sends, batches and polls: every event once and in order, every reply once and in order. */
    method Session(uses: seq<Use>) returns (events: seq<string>, replies: seq<string>)
      modifies this`buf, this`incoming, this`cuts, this`pending
      ensures Strip(old(EventsLeft())) == Strip(events + EventsLeft())
      ensures Strip(old(RepliesLeft())) == Strip(replies + RepliesLeft())
      ensures old(Clean(Stream())) ==>
                && Clean(Stream())
                && old(EventsLeft()) == events + EventsLeft() && old(RepliesLeft()) == replies + RepliesLeft()
    {
      hide Lines, Events, Replies, Clean, Strip;
      events, replies := [], [];
      assert [] + EventsLeft() == EventsLeft() && [] + RepliesLeft() == RepliesLeft();
      for i := 0 to |uses|
        invariant Strip(old(EventsLeft())) == Strip(events + EventsLeft())
        invariant Strip(old(RepliesLeft())) == Strip(replies + RepliesLeft())
        invariant old(Clean(Stream())) ==>
                    && Clean(Stream())
                    && old(EventsLeft()) == events + EventsLeft() && old(RepliesLeft()) == replies + RepliesLeft()
      {
        ghost var eventsLeft, repliesLeft := EventsLeft(), RepliesLeft();
        ghost var oldEvents, oldReplies := events, replies;
        match uses[i]
        case DoSend =>
          var outcome := Send();
          if !outcome.Closed? {
            replies := replies + [outcome.reply];
            assert oldReplies + ([outcome.reply] + RepliesLeft()) == replies + RepliesLeft();
          }
        case DoSendBatch(n) =>
          var closed, some := SendBatch(n);
          replies := replies + some;
          assert oldReplies + (some + RepliesLeft()) == replies + RepliesLeft();
        case DoPoll(blocks) =>
          var some, raised := PollEvents(blocks);
          events := events + some;
          assert oldEvents + (some + EventsLeft()) == events + EventsLeft();
          StripConcat(oldEvents, eventsLeft);
          StripConcat(oldEvents, some + EventsLeft());
          StripConcat(replies, repliesLeft);
          StripConcat(replies, RepliesLeft());
      }
    }

    /** A binary answer of `rows` by `cols` floats: a header line, then exactly their bytes however they arrived. */
    method ReadMatrix(tag: string, rows: nat, cols: nat, number: string -> Number) returns (answer: Binary)
      modifies this`buf, this`incoming, this`cuts
      ensures answer.Lost? ||
              (var s := old(Stream());
               '\n' in s &&
               var header, rest := Chomp(s[..IndexOf(s, '\n')]), s[IndexOf(s, '\n') + 1..];
               if Announces(tag, header, rows, cols, number) then
                 answer.Got? && |answer.payload| == rows * cols * 4 && answer.payload + Stream() == rest
               else answer == Refused(header) && Stream() == rest)
      ensures old(Patient()) && answer.Lost? ==>
                var s := old(Stream());
                '\n' in s ==> |s[IndexOf(s, '\n') + 1..]| < rows * cols * 4
    {
      hide IndexOf, Chomp, Words;
      var ok, header := ReadLine();
      if !ok {
        return Lost;
      }
      if "-ERR" <= header || !(tag <= header) {
        return Refused(header);
      }
      var parts := Words(header[|tag|..], "");
      if |parts| != 2 {
        return Refused(header);
      }
      var m, n := number(parts[0]), number(parts[1]);
      if m.NotANumber? || n.NotANumber? || m.n != rows || n.n != cols {
        return Refused(header);
      }
      var payload;
      ok, payload := ReadPayload(m.n * n.n * 4);
      answer := if ok then Got(payload) else Lost;
    }

    /** What the buffer already holds first, then as much of each chunk as is still missing. */
    method ReadPayload(need: nat) returns (ok: bool, payload: string)
      modifies this`buf, this`incoming, this`cuts
      ensures ok ==> |payload| == need && payload + Stream() == old(Stream())
      ensures old(Patient()) ==> Patient() && (ok <==> need <= |old(Stream())|)
    {
      payload := "";
      ghost var s := Stream();
      if buf != "" {
        var take := Min(need, |buf|);
        payload := buf[..take];
        buf := buf[take..];
        assert payload + (buf + incoming) == s;
      }
      while |payload| < need
        invariant old(Patient()) ==> Patient()
        invariant |payload| <= need && payload + Stream() == s && (buf == "" || |payload| == need)
        decreases need - |payload|
      {
        ghost var had := payload;
        var chunk, _ := Recv(need - |payload|);
        if chunk == "" {
          return false, "";
        }
        payload := payload + chunk;
        assert had + (buf + (chunk + incoming)) == payload + (buf + incoming);
      }
      ok := true;
    }
  }

  function Min(a: nat, b: nat): nat { if a < b then a else b }

  /** A header's two numbers, set apart by white space, with or without more around them. */
  lemma HeaderWords(a: string, b: string, space: char)
    requires a != "" && b != ""
    requires forall c :: c in a || c in b ==> c !in " \t\n\r" && c != 11 as char && c != 12 as char
    requires space in " \t\n\r" || space == 11 as char || space == 12 as char
    ensures Words(a + [space] + b, "") == [a, b] && Words([space] + a + [space] + b + [space], "") == [a, b]
  {
    var end: string := [];
    WordTaken(a, [space] + b, "");
    WordTaken(b, end, "");
    assert a + [space] + b == a + ([space] + b) && b + end == b && "" + a == a && "" + b == b;
    assert ([space] + b)[1..] == b;
    WordTaken(a, [space] + b + [space], "");
    WordTaken(b, [space], "");
    assert [space] + a + [space] + b + [space] == [space] + (a + ([space] + b + [space]));
    assert ([space] + (a + ([space] + b + [space])))[1..] == a + ([space] + b + [space]);
    assert ([space] + b + [space])[1..] == b + [space] && [space][1..] == end;
  }

  lemma {:induction false} WordTaken(a: string, rest: string, word: string)
    requires forall c :: c in a ==> !IsSpace(c)
    ensures Words(a + rest, word) == Words(rest, word + a)
    decreases a
  {
    if a == "" {
      assert a + rest == rest && word + a == word;
    } else {
      assert (a + rest)[1..] == a[1..] + rest && a[0] in a;
      WordTaken(a[1..], rest, word + [a[0]]);
      assert word + [a[0]] + a[1..] == word + a;
    }
  }

  /** Taking the first line off a stream takes one event or one reply off its lines. */
  lemma TakeLine(s: string)
    requires '\n' in s
    ensures var line, t := Chomp(s[..IndexOf(s, '\n')]), s[IndexOf(s, '\n') + 1..];
            && Events(Lines(s)) == (if IsEvent(line) then [line] else []) + Events(Lines(t))
            && Replies(Lines(s)) == (if IsEvent(line) then [] else [line]) + Replies(Lines(t))
  {
    hide IndexOf, Lines, Chomp;
    var line, t := Chomp(s[..IndexOf(s, '\n')]), s[IndexOf(s, '\n') + 1..];
    OneLine(s, IndexOf(s, '\n'));
    assert ([line] + Lines(t))[1..] == Lines(t);
  }

  lemma NothingLeft(s: string)
    requires '\n' !in s
    ensures Events(Lines(s)) == [] && Replies(Lines(s)) == []
  {
    NoLine(s);
  }

  lemma StashedLines(line: string, s: string)
    requires Lines(line + "\n" + s) == [line] + Lines(s)
    ensures Events(Lines(line + "\n" + s)) == (if IsEvent(line) then [line] else []) + Events(Lines(s))
    ensures Replies(Lines(line + "\n" + s)) == (if IsEvent(line) then [] else [line]) + Replies(Lines(s))
  {
    assert ([line] + Lines(s))[1..] == Lines(s);
  }

  /** The two ways of stripping agree exactly on lines with at most one trailing CR. */
  lemma StripsAlike(line: string)
    ensures RStrip(line) == Chomp(line) <==>
              !(|line| >= 2 && line[|line| - 1] == '\r' && line[|line| - 2] == '\r')
  {
    var n := |line|;
    if n >= 1 && line[n - 1] == '\r' {
      RStripTwice(line[..n - 1]);
    }
  }

  lemma RStripTwice(line: string)
    ensures RStrip(line) == line <==> !(line != "" && line[|line| - 1] == '\r')
  {
    if line != "" && line[|line| - 1] == '\r' {
      RStripShorter(line[..|line| - 1]);
    }
  }

  lemma {:induction false} RStripShorter(line: string)
    ensures |RStrip(line)| <= |line| && RStrip(line) <= line
    ensures RStrip(line) != "" ==> RStrip(line)[|RStrip(line)| - 1] != '\r'
  {
    if line != "" && line[|line| - 1] == '\r' {
      RStripShorter(line[..|line| - 1]);
    }
  }

  lemma CleanSuffix(s: string, i: nat)
    requires i <= |s|
    ensures Clean(s) ==> Clean(s[i..])
  {
    if Clean(s) {
      var t := s[i..];
      forall j | 0 <= j && j + 2 < |t| && t[j] == '\r' && t[j + 1] == '\r'
        ensures t[j + 2] != '\n'
      {
        assert s[j + i] == t[j] && s[j + 1 + i] == t[j + 1] && s[(j + i) + 2] == t[j + 2];
      }
    }
  }

  /** In a clean stream the first line strips alike. */
  lemma CleanLine(s: string)
    requires Clean(s) && '\n' in s
    ensures RStrip(s[..IndexOf(s, '\n')]) == Chomp(s[..IndexOf(s, '\n')])
  {
    StripsAlike(s[..IndexOf(s, '\n')]);
  }

  // ----- Up to trailing CRs, on every stream -----

  lemma {:induction false} StripConcat(a: seq<string>, b: seq<string>)
    ensures Strip(a + b) == Strip(a) + Strip(b)
  {
    if a == [] {
      assert a + b == b;
    } else {
      assert (a + b)[1..] == a[1..] + b;
      StripConcat(a[1..], b);
    }
  }

  lemma {:induction false} RStripKeepsEvent(line: string)
    ensures IsEvent(RStrip(line)) <==> IsEvent(line)
  {
    if line != "" && line[|line| - 1] == '\r' {
      RStripKeepsEvent(line[..|line| - 1]);
      if IsEvent(line) {
        assert line[4] == ' ' && line[..5] == ">EVT ";
        assert line[..|line| - 1][..5] == ">EVT ";
      }
    }
  }

  /** Both ways of stripping see the same kind of line, and stripping fully comes to the same. */
  lemma StripOfChomp(raw: string)
    ensures RStrip(Chomp(raw)) == RStrip(raw) == RStrip(RStrip(raw))
    ensures IsEvent(Chomp(raw)) <==> IsEvent(RStrip(raw))
  {
    RStripKeepsEvent(raw);
    RStripKeepsEvent(Chomp(raw));
    RStripShorter(raw);
  }

  ghost predicate Stripped(lines: seq<string>) { Strip(lines) == lines }

  lemma {:induction false} StripStripped(lines: seq<string>)
    ensures Strip(Strip(lines)) == Strip(lines)
  {
    if lines != [] {
      StripOfChomp(lines[0]);
      StripStripped(lines[1..]);
      assert Strip(lines)[1..] == Strip(lines[1..]);
    }
  }

  /** In a clean stream no line has a CR left to strip. */
  lemma {:induction false} CleanIsStripped(s: string)
    requires Clean(s)
    ensures Stripped(Events(Lines(s))) && Stripped(Replies(Lines(s)))
    decreases s
  {
    hide IndexOf, Chomp, Lines, Clean, RStrip;
    if '\n' in s {
      var i := IndexOf(s, '\n');
      CleanLine(s);
      CleanSuffix(s, i + 1);
      CleanIsStripped(s[i + 1..]);
      StripOfChomp(s[..i]);
      TakeLine(s);
      var line := Chomp(s[..i]);
      StripConcat([line], Events(Lines(s[i + 1..])));
      StripConcat([line], Replies(Lines(s[i + 1..])));
      StripOne(line);
      assert [] + Events(Lines(s[i + 1..])) == Events(Lines(s[i + 1..]));
      assert [] + Replies(Lines(s[i + 1..])) == Replies(Lines(s[i + 1..]));
    } else {
      NoLine(s);
    }
  }

  lemma StripOne(line: string)
    ensures Strip([line]) == [RStrip(line)] && Strip([]) == []
  {
    assert [line][1..] == [];
  }

  /** Where a poll stands: what it took off the first stream, and what is left, make up the whole. */
  ghost predicate Polled(first: string, events: seq<string>, now: string) {
    && Stripped(events)
    && Strip(Events(Lines(first))) == events + Strip(Events(Lines(now)))
    && Strip(Replies(Lines(first))) == Strip(Replies(Lines(now)))
    && (Clean(first) ==> Clean(now))
  }

  /** One line of a poll: an event taken, or a reply put back. */
  lemma PollStep(first: string, events: seq<string>, s: string)
    requires Polled(first, events, s) && '\n' in s
    ensures var line, rest := RStrip(s[..IndexOf(s, '\n')]), s[IndexOf(s, '\n') + 1..];
            if IsEvent(line) then Polled(first, events + [line], rest) else Polled(first, events, line + "\n" + rest)
  {
    hide *;
    var i := IndexOf(s, '\n');
    var raw, rest := s[..i], s[i + 1..];
    var line := RStrip(raw);
    StripOfChomp(raw);
    TakeLine(s);
    CleanSuffix(s, i + 1);
    RawLine(s);
    if IsEvent(line) {
      PollEvent(first, events, s, raw, rest);
    } else {
      StashedLine(line, rest);
      StashedLines(line, rest);
      PollReply(first, events, s, raw, rest, line + "\n" + rest);
    }
  }

  lemma PollEvent(first: string, events: seq<string>, s: string, raw: string, rest: string)
    requires Polled(first, events, s) && (Clean(s) ==> Clean(rest))
             && RStrip(Chomp(raw)) == RStrip(raw) == RStrip(RStrip(raw))
    requires Events(Lines(s)) == [Chomp(raw)] + Events(Lines(rest)) && Replies(Lines(s)) == [] + Replies(Lines(rest))
    ensures Polled(first, events + [RStrip(raw)], rest)
  {
    hide Chomp, Lines, Clean, RStrip, Events, Replies, Strip;
    var line := RStrip(raw);
    StripOne(Chomp(raw));
    StripOne(line);
    StripConcat(events, [line]);
    StripConcat([Chomp(raw)], Events(Lines(rest)));
    assert [] + Replies(Lines(rest)) == Replies(Lines(rest));
    assert events + ([line] + Strip(Events(Lines(rest)))) == events + [line] + Strip(Events(Lines(rest)));
  }

  lemma PollReply(first: string, events: seq<string>, s: string, raw: string, rest: string, back: string)
    requires Polled(first, events, s) && (Clean(s) ==> Clean(back))
             && RStrip(Chomp(raw)) == RStrip(raw) == RStrip(RStrip(raw))
    requires Events(Lines(s)) == [] + Events(Lines(rest)) == Events(Lines(back))
    requires Replies(Lines(s)) == [Chomp(raw)] + Replies(Lines(rest))
             && Replies(Lines(back)) == [RStrip(raw)] + Replies(Lines(rest))
    ensures Polled(first, events, back)
  {
    hide Chomp, Lines, Clean, RStrip, Events, Replies, Strip;
    StripOne(Chomp(raw));
    StripOne(RStrip(raw));
    StripConcat([Chomp(raw)], Replies(Lines(rest)));
    StripConcat([RStrip(raw)], Replies(Lines(rest)));
  }

  lemma RawLine(s: string)
    requires '\n' in s
    ensures '\n' !in RStrip(s[..IndexOf(s, '\n')])
    ensures var line := RStrip(s[..IndexOf(s, '\n')]); line != "" ==> line[|line| - 1] != '\r'
  {
    RStripShorter(s[..IndexOf(s, '\n')]);
  }

  /** At the end of a poll nothing is lost but CRs; on a clean stream nothing at all. */
  lemma PollEnd(first: string, events: seq<string>, now: string)
    requires Polled(first, events, now)
    ensures Strip(Events(Lines(first))) == Strip(events + Events(Lines(now)))
    ensures Strip(Replies(Lines(now))) == Strip(Replies(Lines(first)))
    ensures Clean(first) ==>
              && Clean(now) && Events(Lines(first)) == events + Events(Lines(now))
              && Replies(Lines(now)) == Replies(Lines(first))
  {
    StripConcat(events, Events(Lines(now)));
    if Clean(first) {
      CleanIsStripped(first);
      CleanIsStripped(now);
    }
  }

  lemma ChompNone(line: string)
    requires line != "" ==> line[|line| - 1] != '\r'
    ensures Chomp(line) == line
  {
  }

  /** A stripped line put back with a bare newline reads as the same line again. */
  lemma StashedLine(line: string, s: string)
    requires '\n' !in line && (line != "" ==> line[|line| - 1] != '\r')
    ensures Lines(line + "\n" + s) == [line] + Lines(s)
    ensures Clean(s) ==> Clean(line + "\n" + s)
  {
    hide *;
    var t := line + "\n" + s;
    assert t == line + ("\n" + s);
    IndexOfAppend(line, "\n" + s, '\n');
    OneLine(t, |line|);
    assert t[..|line|] == line && t[|line| + 1..] == s;
    ChompNone(line);
    if Clean(s) {
      StashedClean(line, s);
    }
  }

  lemma StashedClean(line: string, s: string)
    requires Clean(s) && '\n' !in line && (line != "" ==> line[|line| - 1] != '\r')
    ensures Clean(line + "\n" + s)
  {
    var t, n := line + "\n" + s, |line|;
    forall j | 0 <= j && j + 2 < |t| && t[j] == '\r' && t[j + 1] == '\r'
      ensures t[j + 2] != '\n'
    {
      if j > n {
        var k := j - n - 1;
        assert s[k] == t[j] && s[k + 1] == t[j + 1] && s[k + 2] == t[j + 2];
      } else if j + 2 < n {
        assert t[j + 2] == line[j + 2] && line[j + 2] in line;
      }
    }
  }

  lemma {:induction false} IndexOfAppend(a: string, b: string, c: char)
    requires c !in a && b != "" && b[0] == c
    ensures c in a + b && IndexOf(a + b, c) == |a|
  {
    assert c == (a + b)[|a|];
    if a != "" {
      assert (a + b)[1..] == a[1..] + b && a[0] in a;
      IndexOfAppend(a[1..], b, c);
    } else {
      assert a + b == b;
    }
  }
}
