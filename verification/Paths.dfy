/**
 Path strings: the right-to-left, in-place normaliser and what is built on it.
 The reference is a left-to-right stack machine.
 */
module Paths {
  // ----- Splitting and joining -----

  predicate NoSlash(s: string) { '/' !in s }

  /** One path component: not empty, no slash in it. */
  predicate IsPart(s: string) { s != "" && NoSlash(s) }

  predicate AllParts(parts: seq<string>) { forall i :: 0 <= i < |parts| ==> IsPart(parts[i]) }

  /** `path.split("/")`: one piece more than there are slashes. */
  function Split(path: string): (pieces: seq<string>)
    ensures pieces != [] && forall i :: 0 <= i < |pieces| ==> NoSlash(pieces[i])
  {
    if path == "" then [""]
    else if path[0] == '/' then [""] + Split(path[1..])
    else
      var rest := Split(path[1..]);
      [[path[0]] + rest[0]] + rest[1..]
  }

  /** `.filter(p => !!p)` */
  function NonEmpty(pieces: seq<string>): (parts: seq<string>)
    requires forall i :: 0 <= i < |pieces| ==> NoSlash(pieces[i])
    ensures AllParts(parts)
  {
    if pieces == [] then []
    else (if pieces[0] == "" then [] else [pieces[0]]) + NonEmpty(pieces[1..])
  }

  function Segments(path: string): (parts: seq<string>)
    ensures AllParts(parts)
  {
    NonEmpty(Split(path))
  }

  function Join(parts: seq<string>): string {
    if parts == [] then "" else if |parts| == 1 then parts[0] else parts[0] + "/" + Join(parts[1..])
  }

  predicate IsAbs(path: string) { path != "" && path[0] == '/' }

  lemma {:induction false} SplitConcat(a: string, b: string)
    ensures Split(a + "/" + b) == Split(a) + Split(b)
  {
    if a == "" {
      assert "" + "/" + b == "/" + b && ("/" + b)[1..] == b;
    } else {
      assert (a + "/" + b)[1..] == a[1..] + "/" + b;
      SplitConcat(a[1..], b);
    }
  }

  lemma {:induction false} NonEmptyConcat(a: seq<string>, b: seq<string>)
    requires forall i :: 0 <= i < |a| ==> NoSlash(a[i])
    requires forall i :: 0 <= i < |b| ==> NoSlash(b[i])
    ensures NonEmpty(a + b) == NonEmpty(a) + NonEmpty(b)
  {
    if a == [] {
      assert a + b == b;
    } else {
      assert (a + b)[1..] == a[1..] + b;
      NonEmptyConcat(a[1..], b);
    }
  }

  /** A slash between two paths puts their segments side by side. */
  lemma SegmentsConcat(a: string, b: string)
    ensures Segments(a + "/" + b) == Segments(a) + Segments(b)
  {
    SplitConcat(a, b);
    NonEmptyConcat(Split(a), Split(b));
  }

  lemma {:induction false} SplitPart(s: string)
    requires NoSlash(s)
    ensures Split(s) == [s]
  {
    if s != "" {
      assert NoSlash(s[1..]) by {
        assert forall i :: 0 <= i < |s[1..]| ==> s[1..][i] == s[i + 1];
      }
      SplitPart(s[1..]);
      assert s[0] in s && [s[0]] + s[1..] == s;
    }
  }

  lemma {:induction false} SegmentsJoin(parts: seq<string>)
    requires AllParts(parts)
    ensures Segments(Join(parts)) == parts
  {
    if parts == [] {
      assert Split("") == [""] && NonEmpty([""]) == [] + NonEmpty([]);
    } else {
      assert IsPart(parts[0]);
      SplitPart(parts[0]);
      assert Segments(parts[0]) == [parts[0]] + NonEmpty([]) == [parts[0]];
      if |parts| > 1 {
        SegmentsJoin(parts[1..]);
        SegmentsConcat(parts[0], Join(parts[1..]));
        assert [parts[0]] + parts[1..] == parts;
      }
    }
  }

  lemma SegmentsSlash(s: string)
    ensures Segments("/" + s) == Segments(s) && Segments(s + "/") == Segments(s)
  {
    SegmentsConcat("", s);
    SegmentsConcat(s, "");
    assert Segments("") == [] by {
      assert NonEmpty([""]) == [] + NonEmpty([]);
    }
    assert "" + "/" + s == "/" + s && s + "/" + "" == s + "/";
  }

  // ----- Normalising -----

  /** What the right-to-left scan keeps, and how many ".." it could not yet spend. */
  datatype Scan = Scan(kept: seq<string>, up: nat)

  function ScanStep(part: string, s: Scan): Scan {
    if part == "." then s
    else if part == ".." then s.(up := s.up + 1)
    else if s.up > 0 then s.(up := s.up - 1)
    else s.(kept := [part] + s.kept)
  }

  function ScanFrom(parts: seq<string>): Scan {
    if parts == [] then Scan([], 0) else ScanStep(parts[0], ScanFrom(parts[1..]))
  }

  function Ups(n: nat): (r: seq<string>)
    ensures |r| == n && forall i :: 0 <= i < n ==> r[i] == ".."
  {
    seq(n, _ => "..")
  }

  /** The reference: walk left to right; ".." pops a name, or climbs above the root if it may. */
  function Push(stack: seq<string>, part: string, above: bool): seq<string> {
    if part == "." then stack
    else if part != ".." then stack + [part]
    else if stack != [] && stack[|stack| - 1] != ".." then stack[..|stack| - 1]
    else if above then stack + [".."]
    else stack
  }

  function Walk(stack: seq<string>, parts: seq<string>, above: bool): seq<string>
    decreases parts
  {
    if parts == [] then stack else Walk(Push(stack, parts[0], above), parts[1..], above)
  }

  /** `PATH.normalizeArray`: scans from the right, splicing parts out of the list as it goes. */
  method NormalizeArray(parts: seq<string>, allowAboveRoot: bool) returns (out: seq<string>)
    ensures out == Walk([], parts, allowAboveRoot)
  {
    hide Walk, PopAll;
    out := parts;
    var up := 0;
    var i := |parts| - 1;
    while i >= 0
      invariant -1 <= i < |parts| && 0 <= up
      invariant i + 1 <= |out| && out[..i + 1] == parts[..i + 1]
      invariant ScanFrom(parts[i + 1..]) == Scan(out[i + 1..], up)
    {
      var last := out[i];
      assert out[i] == out[..i + 1][i] == parts[..i + 1][i];
      ghost var was := out;
      ScanOneMore(parts, i);
      if last == "." {
        out := out[..i] + out[i + 1..];
      } else if last == ".." {
        out := out[..i] + out[i + 1..];
        up := up + 1;
      } else if up > 0 {
        out := out[..i] + out[i + 1..];
        up := up - 1;
      }
      assert out[i..] == if |out| < |was| then was[i + 1..] else [last] + was[i + 1..];
      assert out[..i] == was[..i] == was[..i + 1][..i] == parts[..i + 1][..i] == parts[..i];
      i := i - 1;
    }
    assert parts[0..] == parts && out[0..] == out;
    ScanIsWalk([], parts, allowAboveRoot);
    assert PopAll([], up, allowAboveRoot) == if allowAboveRoot then Ups(up) else [] by {
      PopEmpty([], up, allowAboveRoot);
    }
    if allowAboveRoot {
      ghost var kept := out;
      while up > 0
        invariant Ups(up) + out == Ups(ScanFrom(parts).up) + kept
        decreases up
      {
        assert Ups(up) == Ups(up - 1) + [".."];
        out := [".."] + out;
        up := up - 1;
      }
      assert Ups(0) + out == out;
    } else {
      assert [] + out == out;
    }
  }

  lemma ScanOneMore(parts: seq<string>, i: nat)
    requires i < |parts|
    ensures ScanFrom(parts[i..]) == ScanStep(parts[i], ScanFrom(parts[i + 1..]))
  {
    assert parts[i..][1..] == parts[i + 1..];
  }

  function PopAll(stack: seq<string>, up: nat, above: bool): seq<string>
    decreases up
  {
    if up == 0 then stack else PopAll(Push(stack, "..", above), up - 1, above)
  }

  lemma {:induction false} PopEmpty(stack: seq<string>, up: nat, above: bool)
    requires forall i :: 0 <= i < |stack| ==> stack[i] == ".."
    ensures PopAll(stack, up, above) == if above then stack + Ups(up) else stack
    decreases up
  {
    if up > 0 {
      PopEmpty(Push(stack, "..", above), up - 1, above);
      assert [".."] + Ups(up - 1) == Ups(up);
      assert stack + [".."] + Ups(up - 1) == stack + ([".."] + Ups(up - 1));
    }
  }

  lemma PopNone(stack: seq<string>, above: bool)
    ensures PopAll(stack, 0, above) == stack
  {
  }

  /** Both directions agree: the scan's unspent ".." pop the stack that was there before. */
  lemma {:induction false} ScanIsWalk(stack: seq<string>, parts: seq<string>, above: bool)
    ensures Walk(stack, parts, above) == PopAll(stack, ScanFrom(parts).up, above) + ScanFrom(parts).kept
    decreases parts
  {
    hide Push, PopAll, ScanStep;
    if parts == [] {
      PopNone(stack, above);
      assert stack + [] == stack;
    } else {
      var s := ScanFrom(parts[1..]);
      var x := parts[0];
      ScanIsWalk(Push(stack, x, above), parts[1..], above);
      PushIsScanStep(stack, x, s, above);
    }
  }

  /** Pushing a part first, or meeting it last. */
  lemma PushIsScanStep(stack: seq<string>, x: string, s: Scan, above: bool)
    ensures var s' := ScanStep(x, s);
            PopAll(Push(stack, x, above), s.up, above) + s.kept == PopAll(stack, s'.up, above) + s'.kept
  {
    if x != "." && x != ".." {
      assert Push(stack + [x], "..", above) == stack;
      if s.up == 0 {
        assert stack + [x] + s.kept == stack + ([x] + s.kept);
      }
    }
  }

  // ----- The walk's results are in normal form -----

  /** Parts that name something: neither "." nor "..". */
  predicate Names(parts: seq<string>) {
    forall i :: 0 <= i < |parts| ==> parts[i] != "." && parts[i] != ".."
  }

  /** Leading ".." (only where climbing above the root is allowed), then names. */
  ghost predicate Normal(parts: seq<string>, above: bool) {
    exists n: nat :: NormalFrom(parts, n, above)
  }

  /** `n` times "..", then names. */
  predicate NormalFrom(parts: seq<string>, n: nat, above: bool) {
    && n <= |parts| && (n > 0 ==> above)
    && (forall i :: 0 <= i < n ==> parts[i] == "..")
    && (forall i :: n <= i < |parts| ==> parts[i] != "." && parts[i] != "..")
  }

  lemma PushNormal(stack: seq<string>, part: string, above: bool)
    requires Normal(stack, above)
    ensures Normal(Push(stack, part, above), above)
  {
    var n: nat :| NormalFrom(stack, n, above);
    var out := Push(stack, part, above);
    assert NormalFrom(out, if part == ".." && |stack| == n && above then n + 1 else n, above);
  }

  lemma {:induction false} WalkNormal(stack: seq<string>, parts: seq<string>, above: bool)
    requires Normal(stack, above)
    ensures Normal(Walk(stack, parts, above), above)
    decreases parts
  {
    if parts != [] {
      PushNormal(stack, parts[0], above);
      WalkNormal(Push(stack, parts[0], above), parts[1..], above);
    }
  }

  lemma EmptyNormal(above: bool)
    ensures Normal([], above)
  {
    assert NormalFrom([], 0, above);
  }

  lemma {:induction false} WalkConcat(stack: seq<string>, a: seq<string>, b: seq<string>, above: bool)
    ensures Walk(stack, a + b, above) == Walk(Walk(stack, a, above), b, above)
    decreases a
  {
    if a == [] {
      assert a + b == b;
    } else {
      assert (a + b)[1..] == a[1..] + b;
      WalkConcat(Push(stack, a[0], above), a[1..], b, above);
    }
  }

  lemma {:induction false} WalkNames(stack: seq<string>, names: seq<string>, above: bool)
    requires Names(names)
    ensures Walk(stack, names, above) == stack + names
    decreases names
  {
    if names == [] {
      assert stack + names == stack;
    } else {
      assert stack + names == (stack + [names[0]]) + names[1..];
      WalkNames(stack + [names[0]], names[1..], above);
    }
  }

  lemma WalkPush(stack: seq<string>, part: string, rest: seq<string>, above: bool)
    ensures Walk(stack, [part] + rest, above) == Walk(Push(stack, part, above), rest, above)
  {
    assert ([part] + rest)[1..] == rest;
  }

  /**
   What normalising does away with, anywhere in a path: "." and a name with the ".." after it mean nothing,
   and neither does a ".." at the root of an absolute path.
   */
  lemma WalkSkips(a: seq<string>, name: string, b: seq<string>, above: bool)
    requires name != "." && name != ".."
    ensures Walk([], a + ["."] + b, above) == Walk([], a + b, above)
    ensures Walk([], a + [name, ".."] + b, above) == Walk([], a + b, above)
    ensures Walk([], [".."] + b, false) == Walk([], b, false)
  {
    var stack := Walk([], a, above);
    WalkConcat([], a, b, above);
    WalkConcat([], a, ["."] + b, above);
    WalkConcat([], a, [name, ".."] + b, above);
    assert a + ["."] + b == a + (["."] + b) && a + [name, ".."] + b == a + ([name, ".."] + b);
    assert [name, ".."] + b == [name] + ([".."] + b);
    WalkPush(stack, ".", b, above);
    WalkPush(stack, name, [".."] + b, above);
    WalkPush(stack + [name], "..", b, above);
    WalkPush([], "..", b, false);
    assert (stack + [name])[..|stack|] == stack;
  }

  lemma {:induction false} WalkUps(stack: seq<string>, n: nat, above: bool)
    requires above && forall i :: 0 <= i < |stack| ==> stack[i] == ".."
    ensures Walk(stack, Ups(n), above) == stack + Ups(n)
    decreases n
  {
    if n == 0 {
      assert stack + Ups(0) == stack;
    } else {
      assert Ups(n)[1..] == Ups(n - 1);
      WalkUps(stack + [".."], n - 1, above);
      assert [".."] + Ups(n - 1) == Ups(n);
      assert stack + [".."] + Ups(n - 1) == stack + ([".."] + Ups(n - 1));
    }
  }

  /** ".." taken as often as there are names on top pops exactly those. */
  lemma {:induction false} WalkPops(stack: seq<string>, names: seq<string>, above: bool)
    requires Names(names)
    ensures Walk(stack + names, Ups(|names|), above) == stack
    decreases names
  {
    if names == [] {
      assert stack + names == stack;
    } else {
      var last := |names| - 1;
      assert (stack + names)[|stack + names| - 1] == names[last];
      assert (stack + names)[..|stack + names| - 1] == stack + names[..last];
      assert Ups(|names|)[1..] == Ups(last);
      WalkPops(stack, names[..last], above);
    }
  }

  /** A list in normal form is left alone. */
  lemma NormalIsFixed(parts: seq<string>, above: bool)
    requires Normal(parts, above)
    ensures Walk([], parts, above) == parts
  {
    var n: nat :| NormalFrom(parts, n, above);
    assert parts == Ups(n) + parts[n..] && Names(parts[n..]);
    WalkConcat([], Ups(n), parts[n..], above);
    if n > 0 {
      WalkUps([], n, above);
    } else {
      assert Ups(0) == [];
    }
    assert [] + Ups(n) == Ups(n);
    WalkNames(Ups(n), parts[n..], above);
  }

  lemma {:induction false} WalkParts(stack: seq<string>, parts: seq<string>, above: bool)
    requires AllParts(stack) && AllParts(parts)
    ensures AllParts(Walk(stack, parts, above))
    decreases parts
  {
    if parts != [] {
      assert IsPart("..");
      WalkParts(Push(stack, parts[0], above), parts[1..], above);
    }
  }

  /** The normal form of the parts of a path. */
  function NormalParts(path: string): seq<string> {
    Walk([], Segments(path), !IsAbs(path))
  }

  lemma NormalPartsFixed(path: string)
    ensures Normal(NormalParts(path), !IsAbs(path)) && AllParts(NormalParts(path))
    ensures Walk([], NormalParts(path), !IsAbs(path)) == NormalParts(path)
  {
    EmptyNormal(!IsAbs(path));
    WalkNormal([], Segments(path), !IsAbs(path));
    WalkParts([], Segments(path), !IsAbs(path));
    NormalIsFixed(NormalParts(path), !IsAbs(path));
  }

  /** `PATH.normalize` */
  function Normalize(path: string): string {
    var body := Join(NormalParts(path));
    var shown := if body == "" && !IsAbs(path) then "." else body;
    (if IsAbs(path) then "/" else "") + shown + (if shown != "" && EndsSlash(path) then "/" else "")
  }

  predicate EndsSlash(path: string) { path != "" && path[|path| - 1] == '/' }

  lemma {:induction false} JoinOfParts(parts: seq<string>)
    requires AllParts(parts)
    ensures Join(parts) == "" <==> parts == []
    ensures parts != [] ==> Join(parts)[0] != '/' && !EndsSlash(Join(parts))
  {
    if parts != [] {
      var s := parts[0];
      assert IsPart(s) && s[0] in s && s[|s| - 1] in s;
      if |parts| > 1 {
        JoinOfParts(parts[1..]);
        var rest := Join(parts[1..]);
        assert Join(parts)[|Join(parts)| - 1] == rest[|rest| - 1];
      }
    }
  }

  /** The text `normalize` builds from its parts. */
  function Shown(parts: seq<string>, abs: bool, slash: bool): string {
    var shown := if parts == [] && !abs then "." else Join(parts);
    (if abs then "/" else "") + shown + (if shown != "" && slash then "/" else "")
  }

  lemma ShownParts(parts: seq<string>, abs: bool, slash: bool)
    requires AllParts(parts)
    ensures Segments(Shown(parts, abs, slash)) == if parts == [] && !abs then ["."] else parts
  {
    hide Segments, Join;
    var shown := if parts == [] && !abs then "." else Join(parts);
    assert Segments(shown) == if parts == [] && !abs then ["."] else parts by {
      SegmentsJoin(parts);
      DotIsPart();
    }
    SegmentsSlash(shown);
    SegmentsSlash("/" + shown);
    var front := (if abs then "/" else "") + shown;
    assert front == if abs then "/" + shown else shown;
    assert Segments(front) == Segments(shown) && Segments(front + "/") == Segments(shown);
    assert front + "" == front;
  }

  lemma DotIsPart()
    ensures Segments(".") == ["."]
  {
    SegmentsJoin(["."]);
  }

  lemma ShownEnds(parts: seq<string>, abs: bool, slash: bool)
    requires AllParts(parts)
    ensures IsAbs(Shown(parts, abs, slash)) == abs
    ensures EndsSlash(Shown(parts, abs, slash)) <==> (slash && (parts != [] || !abs)) || Shown(parts, abs, slash) == "/"
  {
    JoinOfParts(parts);
    hide Join;
  }

  /** The parts of a normalised path are the normal parts of the path ("." standing for none). */
  lemma NormalizeParts(path: string)
    ensures IsAbs(Normalize(path)) == IsAbs(path)
    ensures Segments(Normalize(path)) ==
              if NormalParts(path) == [] && !IsAbs(path) then ["."] else NormalParts(path)
    ensures NormalParts(Normalize(path)) == NormalParts(path)
    ensures path != "/" ==> (EndsSlash(Normalize(path)) <==> EndsSlash(path) || Normalize(path) == "/")
  {
    var parts := NormalParts(path);
    var abs := IsAbs(path);
    NormalPartsFixed(path);
    JoinOfParts(parts);
    hide Segments, Join, Normal;
    assert Normalize(path) == Shown(parts, abs, EndsSlash(path));
    ShownParts(parts, abs, EndsSlash(path));
    ShownEnds(parts, abs, EndsSlash(path));
    if parts == [] && !abs {
      assert Walk([], ["."], true) == Walk([], [], true) == [];
    }
  }

  /** Normalising twice is normalising once. */
  lemma NormalizeIdempotent(path: string)
    ensures Normalize(Normalize(path)) == Normalize(path)
  {
    NormalizeParts(path);
  }

  method NormalizePath(path: string) returns (r: string)
    ensures r == Normalize(path)
  {
    var parts := NormalizeArray(Segments(path), !IsAbs(path));
    r := Join(parts);
    if r == "" && !IsAbs(path) {
      r := ".";
    }
    if r != "" && EndsSlash(path) {
      r := r + "/";
    }
    r := (if IsAbs(path) then "/" else "") + r;
  }

  // ----- Resolving against the working directory -----

  /** The text `PATH_FS.resolve` accumulates: from the last absolute argument on, or from `cwd`. */
  function Gathered(cwd: string, args: seq<string>): string {
    if args == [] then cwd + "/"
    else
      var last := args[|args| - 1];
      (if IsAbs(last) then "" else Gathered(cwd, args[..|args| - 1])) + last + "/"
  }

  /** An empty argument reached before an absolute one ends the call with an empty answer. */
  predicate GivesUp(cwd: string, args: seq<string>) {
    if args == [] then cwd == ""
    else
      var last := args[|args| - 1];
      last == "" || (!IsAbs(last) && GivesUp(cwd, args[..|args| - 1]))
  }

  function Resolve(cwd: string, args: seq<string>): string {
    if GivesUp(cwd, args) then ""
    else
      var text := Gathered(cwd, args);
      var r := (if IsAbs(text) then "/" else "") + Join(NormalParts(text));
      if r == "" then "." else r
  }

  lemma GatheredAbs(cwd: string, args: seq<string>)
    requires IsAbs(cwd) && !GivesUp(cwd, args)
    ensures IsAbs(Gathered(cwd, args))
  {
    if args != [] {
      var last := args[|args| - 1];
      if !IsAbs(last) {
        GatheredAbs(cwd, args[..|args| - 1]);
      }
    }
  }

  /** One argument further to the left. */
  lemma GatheredStep(cwd: string, args: seq<string>, i: nat)
    requires i < |args|
    ensures Gathered(cwd, args[..i + 1]) == (if IsAbs(args[i]) then "" else Gathered(cwd, args[..i])) + args[i] + "/"
    ensures GivesUp(cwd, args[..i + 1]) <==> args[i] == "" || (!IsAbs(args[i]) && GivesUp(cwd, args[..i]))
  {
    assert args[..i + 1][..i] == args[..i];
  }

  lemma GatheredCwd(cwd: string, args: seq<string>)
    ensures Gathered(cwd, args[..0]) == cwd + "/" && (GivesUp(cwd, args[..0]) <==> cwd == "")
  {
  }

  method ResolvePath(cwd: string, args: seq<string>) returns (r: string)
    requires IsAbs(cwd)
    ensures r == Resolve(cwd, args)
  {
    hide Gathered, GivesUp, Walk, Segments, Join;
    GatheredCwd(cwd, args);
    var resolvedPath := "";
    var resolvedAbsolute := false;
    var i := |args| - 1;
    assert args[..|args|] == args;
    while i >= -1 && !resolvedAbsolute
      invariant -2 <= i < |args| && (i == -2 ==> resolvedAbsolute)
      invariant resolvedAbsolute ==> !GivesUp(cwd, args) && Gathered(cwd, args) == resolvedPath && IsAbs(resolvedPath)
      invariant !resolvedAbsolute ==>
                  && Gathered(cwd, args) == Gathered(cwd, args[..i + 1]) + resolvedPath
                  && GivesUp(cwd, args) == GivesUp(cwd, args[..i + 1])
    {
      var path := if i >= 0 then args[i] else cwd;
      if i >= 0 {
        GatheredStep(cwd, args, i);
      }
      if path == "" {
        return "";
      }
      ghost var was := resolvedPath;
      resolvedPath := path + "/" + resolvedPath;
      resolvedAbsolute := IsAbs(path);
      ghost var before := if i >= 0 && !resolvedAbsolute then Gathered(cwd, args[..i]) else "";
      assert before + path + "/" + was == before + resolvedPath;
      i := i - 1;
    }
    var parts := NormalizeArray(Segments(resolvedPath), !resolvedAbsolute);
    r := (if resolvedAbsolute then "/" else "") + Join(parts);
    if r == "" {
      r := ".";
    }
  }

  lemma ResolvesUnlessEmpty(cwd: string, p: string)
    requires IsAbs(cwd)
    ensures Resolve(cwd, [p]) == "" <==> p == ""
  {
    var none: seq<string> := [];
    assert [p][..0] == none && !GivesUp(cwd, none);
  }

  /**
   One argument more: an empty one makes the answer empty, an absolute one forgets all before it, and a
   relative one is walked from where the others lead.
   */
  lemma ResolveAppend(cwd: string, args: seq<string>, p: string)
    requires IsAbs(cwd)
    ensures p == "" ==> Resolve(cwd, args + [p]) == ""
    ensures IsAbs(p) ==> Resolve(cwd, args + [p]) == Resolve(cwd, [p])
    ensures p != "" && !IsAbs(p) ==>
              if GivesUp(cwd, args) then Resolve(cwd, args + [p]) == ""
              else Segments(Resolve(cwd, args + [p])) == Walk(Segments(Resolve(cwd, args)), Segments(p), false)
  {
    var all, none: seq<string> := args + [p], [];
    assert all[..|args|] == args && all[|args|] == p && [p][..0] == none;
    if p != "" && !IsAbs(p) && !GivesUp(cwd, args) {
      var text := Gathered(cwd, args);
      GatheredEnds(cwd, args);
      var front := text[..|text| - 1];
      assert text == front + "/" && Gathered(cwd, all) == front + "/" + (p + "/");
      SegmentsConcat(front, p + "/");
      SegmentsSlash(p);
      SegmentsSlash(front);
      WalkConcat([], Segments(front), Segments(p), false);
      ResolvedText(cwd, args);
      ResolvedText(cwd, all);
    }
  }

  lemma GatheredEnds(cwd: string, args: seq<string>)
    ensures EndsSlash(Gathered(cwd, args))
  {
  }

  lemma ResolvedText(cwd: string, args: seq<string>)
    requires IsAbs(cwd) && !GivesUp(cwd, args)
    ensures Segments(Resolve(cwd, args)) == Walk([], Segments(Gathered(cwd, args)), false)
  {
    var text := Gathered(cwd, args);
    GatheredAbs(cwd, args);
    NormalPartsFixed(text);
    SegmentsSlash(Join(NormalParts(text)));
    SegmentsJoin(NormalParts(text));
  }

  /** The parts of the absolute path `resolve(p)` stands for. */
  function ResolvedParts(cwd: string, p: string): seq<string> {
    Walk([], (if IsAbs(p) then [] else Segments(cwd)) + Segments(p), false)
  }

  lemma ResolveOne(cwd: string, p: string)
    requires IsAbs(cwd) && p != ""
    ensures Resolve(cwd, [p]) == "/" + Join(ResolvedParts(cwd, p))
    ensures Names(ResolvedParts(cwd, p)) && AllParts(ResolvedParts(cwd, p))
  {
    var text := Gathered(cwd, [p]);
    var none: seq<string> := [];
    assert [p][..0] == none && Gathered(cwd, none) == cwd + "/" && !GivesUp(cwd, none);
    SegmentsSlash(p);
    SegmentsConcat(cwd, p + "/");
    assert cwd + "/" + p + "/" == cwd + "/" + (p + "/");
    assert IsAbs(p) ==> text == p + "/" && [] + Segments(p) == Segments(p);
    assert Segments(text) == (if IsAbs(p) then [] else Segments(cwd)) + Segments(p);
    NormalPartsFixed(text);
    var parts := NormalParts(text);
    var n: nat :| NormalFrom(parts, n, false);
  }

  // ----- Relative paths -----

  /** `trim`, with JavaScript's clamping `slice(start, end - start + 1)`. */
  method Trim(arr: seq<string>) returns (r: seq<string>)
    ensures AllParts(arr) ==> r == arr
    ensures arr == [""] ==> r == []
  {
    var start := 0;
    while start < |arr| && arr[start] == ""
      invariant 0 <= start <= |arr| && (AllParts(arr) ==> start == 0)
    {
      start := start + 1;
    }
    var end := |arr| - 1;
    while end >= 0 && arr[end] == ""
      invariant -1 <= end < |arr| && (AllParts(arr) ==> end == |arr| - 1)
    {
      end := end - 1;
    }
    if start > end {
      return [];
    }
    assert arr[0..|arr|] == arr;
    r := if start <= end - start + 1 then arr[start..end - start + 1] else [];
  }

  /** Up from `from` to what it shares with `to`, then down. */
  function RelativeParts(from: seq<string>, to: seq<string>): seq<string> {
    var same := Common(from, to);
    Ups(|from| - same) + to[same..]
  }

  function Common(a: seq<string>, b: seq<string>): (n: nat)
    ensures n <= |a| && n <= |b| && a[..n] == b[..n]
    ensures n < |a| && n < |b| ==> a[n] != b[n]
  {
    if a != [] && b != [] && a[0] == b[0] then 1 + Common(a[1..], b[1..]) else 0
  }

  function Relative(cwd: string, from: string, to: string): string {
    Join(RelativeParts(ResolvedParts(cwd, from), ResolvedParts(cwd, to)))
  }

  method PartsOf(cwd: string, path: string) returns (parts: seq<string>)
    requires IsAbs(cwd) && path != ""
    ensures parts == ResolvedParts(cwd, path)
  {
    var resolved := ResolvePath(cwd, [path]);
    ResolveOne(cwd, path);
    SplitJoin(ResolvedParts(cwd, path));
    assert resolved[1..] == Join(ResolvedParts(cwd, path));
    parts := Trim(Split(resolved[1..]));
  }

  method RelativePath(cwd: string, from: string, to: string) returns (r: string)
    requires IsAbs(cwd) && from != "" && to != ""
    ensures r == Relative(cwd, from, to)
  {
    hide ResolvedParts, Join;
    var fromParts := PartsOf(cwd, from);
    var toParts := PartsOf(cwd, to);
    var length := if |fromParts| <= |toParts| then |fromParts| else |toParts|;
    var samePartsLength := length;
    for i := 0 to length
      invariant samePartsLength == length && fromParts[..i] == toParts[..i]
    {
      if fromParts[i] != toParts[i] {
        samePartsLength := i;
        break;
      }
    }
    CommonIs(fromParts, toParts, samePartsLength);
    hide *;
    var outputParts := [];
    for i := samePartsLength to |fromParts|
      invariant outputParts == Ups(i - samePartsLength)
    {
      outputParts := outputParts + [".."];
    }
    outputParts := outputParts + toParts[samePartsLength..];
    r := Join(outputParts);
  }

  lemma {:induction false} CommonIs(a: seq<string>, b: seq<string>, n: nat)
    requires n <= |a| && n <= |b| && a[..n] == b[..n] && (n < |a| && n < |b| ==> a[n] != b[n])
    ensures Common(a, b) == n
  {
    if n > 0 {
      assert a[0] == a[..n][0] == b[..n][0] == b[0];
      assert a[1..][..n - 1] == a[..n][1..] && b[1..][..n - 1] == b[..n][1..];
      CommonIs(a[1..], b[1..], n - 1);
    }
  }

  lemma {:induction false} SplitJoin(parts: seq<string>)
    requires AllParts(parts)
    ensures Split(Join(parts)) == if parts == [] then [""] else parts
  {
    if parts != [] {
      assert IsPart(parts[0]);
      SplitPart(parts[0]);
      if |parts| > 1 {
        SplitJoin(parts[1..]);
        SplitConcat(parts[0], Join(parts[1..]));
        assert [parts[0]] + parts[1..] == parts;
      }
    }
  }

  lemma WalkRelative(f: seq<string>, t: seq<string>)
    requires Names(f) && Names(t)
    ensures Walk(f, RelativeParts(f, t), false) == t
  {
    hide Walk, Common;
    var same := Common(f, t);
    WalkConcat(f, Ups(|f| - same), t[same..], false);
    assert f == f[..same] + f[same..] && t == t[..same] + t[same..];
    assert |f[same..]| == |f| - same;
    WalkPops(f[..same], f[same..], false);
    WalkNames(f[..same], t[same..], false);
  }

  lemma RelativeAreParts(f: seq<string>, t: seq<string>)
    requires AllParts(t)
    ensures AllParts(RelativeParts(f, t))
  {
    assert IsPart("..");
    var same := Common(f, t);
    var rel := RelativeParts(f, t);
    assert forall i :: 0 <= i < |rel| ==> rel[i] == if i < |f| - same then ".." else t[i - (|f| - same) + same];
  }

  /** Appending parts to a path appends them to the walk. */
  lemma ResolvedAppend(cwd: string, from: string, rel: seq<string>)
    requires from != "" && AllParts(rel)
    ensures ResolvedParts(cwd, from + "/" + Join(rel)) == Walk(ResolvedParts(cwd, from), rel, false)
  {
    hide Segments, Join, Walk;
    var joined := from + "/" + Join(rel);
    assert IsAbs(joined) == IsAbs(from);
    SegmentsConcat(from, Join(rel));
    SegmentsJoin(rel);
    var base := if IsAbs(from) then [] else Segments(cwd);
    assert base + (Segments(from) + rel) == base + Segments(from) + rel;
    WalkConcat([], base + Segments(from), rel, false);
  }

  /** `relative` is a right inverse of joining: following it from `from` leads to `to`. */
  lemma RelativeLeadsTo(cwd: string, from: string, to: string)
    requires IsAbs(cwd) && from != "" && to != ""
    ensures Resolve(cwd, [from + "/" + Relative(cwd, from, to)]) == Resolve(cwd, [to])
  {
    var f := ResolvedParts(cwd, from);
    var t := ResolvedParts(cwd, to);
    ResolveOne(cwd, from);
    ResolveOne(cwd, to);
    ResolveOne(cwd, from + "/" + Relative(cwd, from, to));
    RelativeAreParts(f, t);
    ResolvedAppend(cwd, from, RelativeParts(f, t));
    WalkRelative(f, t);
  }

  // ----- Directory names -----

  function TrimSlashes(s: string): string {
    if EndsSlash(s) then TrimSlashes(s[..|s| - 1]) else s
  }

  /** The longest prefix that ends in a slash. */
  function ToLastSlash(s: string): string {
    if s == "" || EndsSlash(s) then s else ToLastSlash(s[..|s| - 1])
  }

  /** `PATH.dirname`: what its pattern calls root and directory, without the directory's last slash. */
  function Dirname(path: string): string {
    var root := IsAbs(path);
    var dir := ToLastSlash(TrimSlashes(if root then path[1..] else path));
    if !root && dir == "" then "."
    else (if root then "/" else "") + (if dir == "" then "" else dir[..|dir| - 1])
  }

  /** `PATH.basename`: the last part; "/" for a path of slashes only, nothing for the empty path. */
  function Basename(path: string): string {
    var parts := Segments(path);
    if parts != [] then parts[|parts| - 1] else if path == "" then "" else "/"
  }

  /** The absolute path with exactly these parts. */
  function Canon(parts: seq<string>): string { "/" + Join(parts) }

  lemma {:induction false} JoinSnoc(parts: seq<string>, last: string)
    ensures Join(parts + [last]) == if parts == [] then last else Join(parts) + "/" + last
  {
    if |parts| > 1 {
      assert (parts + [last])[1..] == parts[1..] + [last];
      JoinSnoc(parts[1..], last);
    }
  }

  lemma {:induction false} ToLastSlashOf(dir: string, name: string)
    requires NoSlash(name)
    ensures ToLastSlash(dir + "/" + name) == dir + "/"
    ensures ToLastSlash(name) == ""
  {
    if name == "" {
      assert dir + "/" + "" == dir + "/";
    } else {
      var n := |name| - 1;
      assert name[n] in name;
      assert (dir + "/" + name)[..|dir + "/" + name| - 1] == dir + "/" + name[..n];
      assert (dir + "/" + name)[|dir + "/" + name| - 1] == name[n];
      assert NoSlash(name[..n]) by {
        assert forall c :: c in name[..n] ==> c in name;
      }
      ToLastSlashOf(dir, name[..n]);
    }
  }

  lemma DirnameCanon(parts: seq<string>, last: string)
    requires AllParts(parts) && IsPart(last)
    ensures Dirname(Canon(parts + [last])) == Canon(parts)
    ensures Dirname(Canon([])) == Canon([])
  {
    var all := parts + [last];
    assert AllParts(all);
    JoinOfParts(all);
    JoinSnoc(parts, last);
    assert Canon(all)[1..] == Join(all);
    ToLastSlashOf(Join(parts), last);
    assert Canon([])[1..] == "";
  }

  lemma SegmentsCanon(parts: seq<string>)
    requires AllParts(parts)
    ensures Segments(Canon(parts)) == parts
  {
    SegmentsSlash(Join(parts));
    SegmentsJoin(parts);
  }

  /** `PATH.join2` of a directory's path and a name. */
  lemma JoinCanon(parts: seq<string>, last: string)
    requires AllParts(parts) && Names(parts) && IsPart(last) && last != "." && last != ".."
    ensures Normalize(Canon(parts) + "/" + last) == Canon(parts + [last])
  {
    var path := Canon(parts) + "/" + last;
    SegmentsConcat(Canon(parts), last);
    SegmentsCanon(parts);
    SplitPart(last);
    assert Segments(last) == [last] + NonEmpty([]) == [last];
    assert Names(parts + [last]);
    WalkNames([], parts + [last], false);
    assert [] + (parts + [last]) == parts + [last];
    assert path[|path| - 1] == last[|last| - 1] && last[|last| - 1] in last;
  }

  lemma {:induction false} ToLastSlashPrefix(s: string)
    ensures ToLastSlash(s) <= s
    ensures ToLastSlash(s) != "" ==> EndsSlash(ToLastSlash(s))
  {
    if s != "" && !EndsSlash(s) {
      ToLastSlashPrefix(s[..|s| - 1]);
    }
  }

  lemma {:induction false} TrimSlashesPrefix(s: string)
    ensures TrimSlashes(s) <= s
  {
    if EndsSlash(s) {
      TrimSlashesPrefix(s[..|s| - 1]);
    }
  }

  /** `dirname` always answers with some path. */
  lemma DirnameSays(path: string)
    ensures Dirname(path) != ""
  {
    var rest := if IsAbs(path) then path[1..] else path;
    TrimSlashesPrefix(rest);
    ToLastSlashPrefix(TrimSlashes(rest));
    var dir := ToLastSlash(TrimSlashes(rest));
    if !IsAbs(path) && dir != "" {
      assert dir <= path && dir[0] == path[0] != '/';
    }
  }

  /**
   The text laws of the two, for any directory text before the last slash: one takes the last name, the
   other what comes before it; a slash at the end changes neither. A name alone lies in ".".
   */
  lemma LastName(dir: string, name: string)
    requires IsPart(name)
    ensures Basename(name) == name && Dirname(name) == "."
    ensures Basename("/" + name) == name && Dirname("/" + name) == "/"
    ensures Basename(dir + "/" + name) == name && Basename(dir + "/" + name + "/") == name
    ensures dir != "" ==> Dirname(dir + "/" + name) == dir && Dirname(dir + "/" + name + "/") == dir
  {
    assert AllParts([name]);
    SegmentsJoin([name]);
    SegmentsConcat(dir, name);
    SegmentsSlash(name);
    SegmentsSlash(dir + "/" + name);
    NameEnds(name);
    ToLastSlashOf("", name);
    assert ("/" + name)[1..] == name && "" + "/" + name == "/" + name;
    if dir != "" {
      DirnameOf(dir, name);
    }
  }

  lemma NameEnds(name: string)
    requires IsPart(name)
    ensures !EndsSlash(name) && !IsAbs(name)
  {
    assert name[0] in name && name[|name| - 1] in name;
  }

  lemma DirnameOf(dir: string, name: string)
    requires IsPart(name) && dir != ""
    ensures Dirname(dir + "/" + name) == dir && Dirname(dir + "/" + name + "/") == dir
  {
    var path := dir + "/" + name;
    NameEnds(name);
    var below := if IsAbs(path) then path[1..] else path;
    var front := if IsAbs(path) then dir[1..] else dir;
    assert IsAbs(path) <==> IsAbs(dir);
    assert below == front + "/" + name && !EndsSlash(below);
    assert (path + "/")[1..] == path[1..] + "/" && EndsSlash(below + "/") && (below + "/")[..|below|] == below;
    ToLastSlashOf(front, name);
    assert (front + "/")[..|front|] == front;
    assert IsAbs(dir) ==> "/" + front == dir;
  }

  /** `basename` of a path that is not empty is a part, or the slash of the root. */
  lemma BasenameOf(path: string)
    requires path != ""
    ensures IsPart(Basename(path)) || Basename(path) == "/"
  {
  }
}
