/**
 What the reference walk answers for path texts, in terms of the tree alone: relative paths, "." and
 "..", names that are missing, and links.
 */
module PlainPaths {
  import opened DirTree
  import opened Errno
  import opened Paths
  import opened PathWalk

  /** A relative path is taken from the working directory. */
  lemma RelativeFromCwd(t: Tree, names: seq<string>, d: Node, path: string, o: Options)
    requires t.Valid() && Leads(t, t.root, names, d) && !d.kind.Link? && path != "" && !IsAbs(path)
    ensures d in t.nodes && Denotes(t, Canon(names), path, o) == Follow(t, d, Segments(path), 0, o)
  {
    LiveRoot(t);
    LeadsLive(t, t.root, names, d);
    SegmentsConcat(Canon(names), path);
    SegmentsCanon(names);
    RelativeHasParts(path);
    hide *;
    FollowPlain(t, t.root, names, d, Segments(path), 0, o);
    DenotesFollows(t, Canon(names), path, o);
  }

  lemma DenotesFollows(t: Tree, cwd: string, path: string, o: Options)
    requires t.Valid() && path != ""
    ensures t.root in t.nodes
    ensures Denotes(t, cwd, path, o) ==
              Follow(t, t.root, Segments(if IsAbs(path) then path else cwd + "/" + path), 0, o)
  {
    LiveRoot(t);
  }

  // ----- Paths that meet no link -----

  /** From `cur`, every part leads on, and none to a link. */
  ghost predicate Strolls(t: Tree, cur: Node, parts: seq<string>)
    requires t.Valid() && cur in t.nodes
    decreases parts
  {
    if parts == [] then true
    else
      LiveParts(t, cur, parts[0]);
      if parts[0] == "." then Strolls(t, cur, parts[1..])
      else if parts[0] == ".." then Strolls(t, t.nodes[cur].parent, parts[1..])
      else
        var next := t.Entry(cur, parts[0]);
        next != null && !next.kind.Link? && Strolls(t, next, parts[1..])
  }

  /** Where no link is met, walking the parts leads where their normal form leads. */
  lemma {:induction false} StrollIsNormal(t: Tree, names: seq<string>, cur: Node, parts: seq<string>, rest: seq<string>,
                                          links: nat, o: Options) returns (node: Node)
    requires t.Valid() && Leads(t, t.root, names, cur) && cur in t.nodes && !cur.kind.Link? && links < MAXLINKS
    requires AllParts(parts) && Strolls(t, cur, parts) && (rest != [] || !o.parent)
    ensures Leads(t, t.root, Walk(names, parts, false), node) && node in t.nodes && !node.kind.Link?
    ensures Follow(t, cur, parts + rest, links, o) == Follow(t, node, rest, links, o)
    decreases parts
  {
    node := cur;
    if parts == [] {
      assert parts + rest == rest;
    } else {
      var tail := parts[1..];
      assert (parts + rest)[0] == parts[0] && (parts + rest)[1..] == tail + rest && IsPart(parts[0]);
      LiveRoot(t);
      LeadsLive(t, t.root, names, cur);
      LiveParts(t, cur, parts[0]);
      hide Tree.Valid, Tree.Entry, Leads, Canon;
      StrollStep(names, parts);
      if parts[0] == "." {
        node := StrollIsNormal(t, names, cur, tail, rest, links, o);
      } else if parts[0] == ".." {
        LeadsUp(t, names, cur);
        var up := t.nodes[cur].parent;
        RootUp(t);
        node := StrollIsNormal(t, if names == [] then names else names[..|names| - 1], up, tail, rest, links, o);
      } else {
        LeadsSnoc(t, t.root, names, cur, parts[0]);
        node := StrollIsNormal(t, names + [parts[0]], t.Entry(cur, parts[0]), tail, rest, links, o);
      }
    }
  }

  lemma RootUp(t: Tree)
    requires t.Valid()
    ensures t.root in t.nodes && t.nodes[t.root].parent == t.root && t.root.kind.Dir? && Leads(t, t.root, [], t.root)
  {
  }

  /** One part of the normal form of an absolute path. */
  lemma StrollStep(names: seq<string>, parts: seq<string>)
    requires parts != [] && Names(names)
    ensures Walk(names, parts, false) ==
              Walk(if parts[0] == "." then names
                   else if parts[0] != ".." then names + [parts[0]]
                   else if names == [] then [] else names[..|names| - 1], parts[1..], false)
  {
    if names != [] {
      assert names[|names| - 1] != "..";
    }
  }

  /**
   Where no link is met, `lookupPath` finds what the path that `resolve` makes of the text names: the two
   ways of reading a path text agree, for relative and for absolute ones.
   */
  lemma LookupIsResolve(t: Tree, cwd: string, path: string, o: Options) returns (node: Node)
    requires t.Valid() && IsAbs(cwd) && path != "" && !o.parent
    requires t.root in t.nodes && Strolls(t, t.root, Segments(if IsAbs(path) then path else cwd + "/" + path))
    ensures Denotes(t, cwd, path, o) == Found(node)
    ensures Leads(t, t.root, ResolvedParts(cwd, path), node)
  {
    var parts := Segments(if IsAbs(path) then path else cwd + "/" + path);
    SegmentsConcat(cwd, path);
    assert parts == (if IsAbs(path) then [] else Segments(cwd)) + Segments(path);
    RootUp(t);
    hide Tree.Valid, Tree.Entry, Leads, Strolls, Segments;
    node := StrollIsNormal(t, [], t.root, parts, [], 0, o);
    assert parts + [] == parts;
  }

  // ----- The first name that is missing, or a link -----

  /** The text of a plain path and more parts: the walk gets through the plain path. */
  lemma Through(t: Tree, cwd: string, names: seq<string>, d: Node, rest: seq<string>, o: Options)
    requires t.Valid() && Leads(t, t.root, names, d) && !d.kind.Link? && rest != [] && AllParts(rest)
    ensures d in t.nodes && Denotes(t, cwd, Canon(names + rest), o) == Follow(t, d, rest, 0, o)
  {
    LiveRoot(t);
    LeadsLive(t, t.root, names, d);
    assert AllParts(names + rest);
    SegmentsCanon(names + rest);
    assert IsAbs(Canon(names + rest)) && Canon(names + rest) != "";
    hide *;
    FollowPlain(t, t.root, names, d, rest, 0, o);
    DenotesFollows(t, cwd, Canon(names + rest), o);
  }

  /**
   A name that a directory does not have: no such entry, unless it is the last part and may be absent; in
   what is no directory, not a directory either way. Only the parent of the last part is asked for
   without it.
   */
  lemma MissingName(t: Tree, cwd: string, names: seq<string>, d: Node, nm: string, rest: seq<string>, o: Options)
    requires t.Valid() && Leads(t, t.root, names, d) && !d.kind.Link? && d in t.nodes
    requires IsPart(nm) && nm != "." && nm != ".." && AllParts(rest) && t.Entry(d, nm) == null
    ensures Denotes(t, cwd, Canon(names + [nm] + rest), o) ==
              if rest == [] && o.parent then Found(d)
              else if !d.kind.Dir? then Failed(ENOTDIR)
              else if rest == [] && o.noentOkay then Absent
              else Failed(ENOENT)
  {
    var more := [nm] + rest;
    assert names + [nm] + rest == names + more && more[0] == nm && more[1..] == rest;
    assert AllParts(more) by {
      assert forall i :: 0 <= i < |more| ==> more[i] == if i == 0 then nm else rest[i - 1];
    }
    hide Tree.Valid, Leads, Canon, Denotes;
    Through(t, cwd, names, d, more, o);
  }

  /**
   A name that is there. As the last part it is what it is, link or not, unless links are to be followed;
   otherwise a link is replaced by its target, from the root or from the link's own directory, and a link
   without a target throws.
   */
  lemma PresentName(t: Tree, cwd: string, names: seq<string>, d: Node, nm: string, rest: seq<string>, o: Options)
    requires t.Valid() && Leads(t, t.root, names, d) && !d.kind.Link? && d in t.nodes && t.root in t.nodes
    requires IsPart(nm) && nm != "." && nm != ".." && AllParts(rest) && t.Entry(d, nm) != null
    ensures var e, r := t.Entry(d, nm), Denotes(t, cwd, Canon(names + [nm] + rest), o);
            && e in t.nodes
            && (rest == [] && o.parent ==> r == Found(d))
            && (rest == [] && !o.parent && (!e.kind.Link? || !o.follow) ==> r == Found(e))
            && (e.kind.Link? && (rest != [] || (o.follow && !o.parent)) ==>
                  var target := t.nodes[e].link;
                  r == if target == "" then Failed(TYPE_ERROR)
                       else Follow(t, if IsAbs(target) then t.root else d, Segments(target) + rest, 1, o))
  {
    var more := [nm] + rest;
    LiveParts(t, d, nm);
    assert names + [nm] + rest == names + more && more[0] == nm && more[1..] == rest;
    assert AllParts(more) by {
      assert forall i :: 0 <= i < |more| ==> more[i] == if i == 0 then nm else rest[i - 1];
    }
    hide Tree.Valid, Tree.Entry, Leads, Canon, Denotes, Segments;
    Through(t, cwd, names, d, more, o);
  }

  /** Thirty-nine links may be followed; the fortieth ends the walk, wherever it leads. */
  lemma FortiethLink(t: Tree, d: Node, nm: string, rest: seq<string>, links: nat, o: Options)
    requires t.Valid() && d in t.nodes && nm != "." && nm != ".." && links < 40 && rest != []
    requires t.Entry(d, nm) != null && t.Entry(d, nm).kind.Link? && t.Entry(d, nm) in t.nodes && t.root in t.nodes
    requires t.nodes[t.Entry(d, nm)].link != ""
    ensures var target := t.nodes[t.Entry(d, nm)].link;
            Follow(t, d, [nm] + rest, links, o) ==
              if links == 39 then Failed(ELOOP)
              else Follow(t, if IsAbs(target) then t.root else d, Segments(target) + rest, links + 1, o)
  {
    var more := [nm] + rest;
    assert more[0] == nm && more[1..] == rest;
    hide Tree.Valid, Tree.Entry, Segments;
  }
}
