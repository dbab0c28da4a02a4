/** Cutting a byte stream into lines, whatever pieces it arrives in. */
module LineCutting {
  function IndexOf(s: string, c: char): (i: nat)
    requires c in s
    ensures i < |s| && s[i] == c && c !in s[..i]
  {
    if s[0] == c then 0 else 1 + IndexOf(s[1..], c)
  }

  /** A line without its one trailing CR. */
  function Chomp(line: string): string {
    if line != "" && line[|line| - 1] == '\r' then line[..|line| - 1] else line
  }

  function Lines(s: string): seq<string> {
    if '\n' in s then [Chomp(s[..IndexOf(s, '\n')])] + Lines(s[IndexOf(s, '\n') + 1..]) else []
  }

  /** What is left after the last newline. */
  function Rest(s: string): (r: string)
    ensures '\n' !in r
  {
    if '\n' in s then Rest(s[IndexOf(s, '\n') + 1..]) else s
  }

  predicate IsEvent(line: string) { ">EVT " <= line }

  function Events(lines: seq<string>): (r: seq<string>)
    ensures |r| <= |lines|
  {
    if lines == [] then [] else (if IsEvent(lines[0]) then [lines[0]] else []) + Events(lines[1..])
  }

  function Replies(lines: seq<string>): (r: seq<string>)
    ensures |r| <= |lines|
  {
    if lines == [] then [] else (if IsEvent(lines[0]) then [] else [lines[0]]) + Replies(lines[1..])
  }

  lemma IndexOfPrefix(a: string, b: string, c: char)
    requires c in a
    ensures c in a + b && IndexOf(a + b, c) == IndexOf(a, c)
    decreases a
  {
    if a[0] != c {
      assert (a + b)[1..] == a[1..] + b;
      IndexOfPrefix(a[1..], b, c);
    } else {
      assert (a + b)[0] == c;
    }
  }

  /** A text with a newline: its first line, then the rest. */
  lemma OneLine(s: string, i: nat)
    requires '\n' in s && i == IndexOf(s, '\n')
    ensures Lines(s) == [Chomp(s[..i])] + Lines(s[i + 1..]) && Rest(s) == Rest(s[i + 1..])
  {
  }

  lemma NoLine(s: string)
    requires '\n' !in s
    ensures Lines(s) == [] && Rest(s) == s
  {
  }

  lemma {:induction false} NewlineAt(text: string, rest: string)
    requires '\n' !in text
    ensures '\n' in text + "\n" + rest && IndexOf(text + "\n" + rest, '\n') == |text|
  {
    var s := text + "\n" + rest;
    assert s[|text|] == '\n';
    if text != "" {
      assert s[1..] == text[1..] + "\n" + rest && s[0] == text[0] && text[0] in text;
      NewlineAt(text[1..], rest);
    }
  }

  /** A text without a newline, ended by one, is a line: all of it but one CR at its end. */
  lemma LineFirst(text: string, rest: string)
    requires '\n' !in text
    ensures Lines(text + "\n" + rest) ==
              [if text != "" && text[|text| - 1] == '\r' then text[..|text| - 1] else text] + Lines(rest)
    ensures Rest(text + "\n" + rest) == Rest(rest)
  {
    var s := text + "\n" + rest;
    NewlineAt(text, rest);
    assert s[..|text|] == text && s[|text| + 1..] == rest;
  }

  /** Each line goes to one side: the events are those that begin with ">EVT ", in order, and the rest are replies. */
  lemma LinesSorted(lines: seq<string>)
    ensures forall l :: l in Events(lines) ==> ">EVT " <= l
    ensures forall l :: l in Replies(lines) ==> !(">EVT " <= l)
    ensures multiset(Events(lines)) + multiset(Replies(lines)) == multiset(lines)
  {
    SidesApart(lines);
    SidesTogether(lines);
  }

  lemma {:induction false} SidesApart(lines: seq<string>)
    ensures forall l :: l in Events(lines) ==> ">EVT " <= l
    ensures forall l :: l in Replies(lines) ==> !(">EVT " <= l)
  {
    if lines != [] {
      SidesApart(lines[1..]);
    }
  }

  lemma {:induction false} SidesTogether(lines: seq<string>)
    ensures multiset(Events(lines)) + multiset(Replies(lines)) == multiset(lines)
  {
    if lines != [] {
      var first, tail := lines[0], lines[1..];
      SidesTogether(tail);
      SortFirst(lines);
      hide *;
      OneMore(first, Events(tail));
      OneMore(first, Replies(tail));
      OneMore(first, tail);
      assert lines == [first] + tail;
    }
  }

  lemma OneMore(line: string, lines: seq<string>)
    ensures multiset([line] + lines) == multiset{line} + multiset(lines)
  {
  }

  lemma SortFirst(lines: seq<string>)
    requires lines != []
    ensures IsEvent(lines[0]) <==> ">EVT " <= lines[0]
    ensures Events(lines) == if IsEvent(lines[0]) then [lines[0]] + Events(lines[1..]) else Events(lines[1..])
    ensures Replies(lines) == if IsEvent(lines[0]) then Replies(lines[1..]) else [lines[0]] + Replies(lines[1..])
  {
  }

  /** More input only appends lines: what was cut before stays as it was cut. */
  lemma {:induction false} LinesConcat(a: string, b: string)
    ensures Lines(a + b) == Lines(a) + Lines(Rest(a) + b)
    ensures Rest(a + b) == Rest(Rest(a) + b)
    decreases a
  {
    hide *;
    if '\n' in a {
      var i := IndexOf(a, '\n');
      IndexOfPrefix(a, b, '\n');
      OneLine(a, i);
      OneLine(a + b, i);
      assert (a + b)[..i] == a[..i] && (a + b)[i + 1..] == a[i + 1..] + b;
      LinesConcat(a[i + 1..], b);
    } else {
      NoLine(a);
    }
  }

  lemma SortedConcat(a: seq<string>, b: seq<string>)
    ensures Events(a + b) == Events(a) + Events(b)
    ensures Replies(a + b) == Replies(a) + Replies(b)
  {
    EventsConcat(a, b);
    RepliesConcat(a, b);
  }

  lemma {:induction false} EventsConcat(a: seq<string>, b: seq<string>)
    ensures Events(a + b) == Events(a) + Events(b)
  {
    if a == [] {
      assert a + b == b;
    } else {
      assert (a + b)[0] == a[0] && (a + b)[1..] == a[1..] + b;
      hide IsEvent;
      EventsConcat(a[1..], b);
    }
  }

  lemma {:induction false} RepliesConcat(a: seq<string>, b: seq<string>)
    ensures Replies(a + b) == Replies(a) + Replies(b)
  {
    if a == [] {
      assert a + b == b;
    } else {
      assert (a + b)[0] == a[0] && (a + b)[1..] == a[1..] + b;
      hide IsEvent;
      RepliesConcat(a[1..], b);
    }
  }
}
