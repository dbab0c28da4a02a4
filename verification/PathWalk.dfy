/**
 What a path denotes in a directory tree: the reference that the path walker is held to.
 */
module PathWalk {
  import opened DirTree
  import opened Errno
  import opened Paths

  const MAXLINKS: nat := 40

  datatype Options = Options(parent: bool, follow: bool, noentOkay: bool)

  /** A node; or the last part missing where that is allowed; or an error. */
  datatype Outcome = Found(node: Node) | Absent | Failed(errno: nat)

  ghost predicate LinksNamed(t: Tree) {
    forall n :: n in t.nodes && n.kind.Link? ==> t.nodes[n].link != ""
  }

  /** What creating, removing and moving do to the promise that every symlink has a target. */
  lemma LinksStayNamed(t: Tree, d: Node, nm: string, n: Node, target: string)
    requires t.Shaped() && LinksNamed(t) && d in t.nodes
    ensures n !in t.nodes ==> (LinksNamed(t.Add(d, nm, n, target)) <==> !n.kind.Link? || target != "")
    ensures nm in t.nodes[d].contents ==> LinksNamed(t.Remove(d, nm))
    ensures n in t.nodes && t.HasParent(n) ==> LinksNamed(t.Move(n, d, nm)) && LinksNamed(t.Aborted(n, d, nm))
  {
    if n !in t.nodes {
      assert t.Add(d, nm, n, target).nodes[n].link == target;
    }
  }

  lemma LiveParts(t: Tree, n: Node, nm: string)
    requires t.Valid() && n in t.nodes
    ensures t.nodes[n].parent in t.nodes
    ensures t.Entry(n, nm) != null ==> t.Entry(n, nm) in t.live && t.Entry(n, nm) in t.nodes
  {
    assert t.HasParent(n) && t.Lists(n);
    if nm in t.nodes[n].contents {
      assert t.ListsAs(n, nm);
    }
  }

  /**
   The path `parts` from directory `cur`, with `links` symlinks followed so far: a link is replaced
   by its target, taken from the link's own directory or from the root. A link that was made without
   a target has `undefined` for one.
   */
  ghost function Follow(t: Tree, cur: Node, parts: seq<string>, links: nat, o: Options): (r: Outcome)
    requires t.Valid() && cur in t.nodes && links < MAXLINKS
    ensures r.Found? ==> r.node in t.nodes
    ensures r.Absent? ==> o.noentOkay
    ensures r.Failed? ==> r.errno > 0
    decreases MAXLINKS - links, |parts|
  {
    var last := |parts| == 1;
    if parts == [] || (last && o.parent) then Found(cur)
    else
      LiveParts(t, cur, parts[0]);
      LiveRoot(t);
      var rest := parts[1..];
      if parts[0] == "." then Follow(t, cur, rest, links, o)
      else if parts[0] == ".." then Follow(t, t.nodes[cur].parent, rest, links, o)
      else
        var next := t.Entry(cur, parts[0]);
        if next == null then
          if !cur.kind.Dir? then Failed(ENOTDIR) else if last && o.noentOkay then Absent else Failed(ENOENT)
        else if next.kind.Link? && (!last || o.follow) then
          var target := t.nodes[next].link;
          if target == "" then Failed(TYPE_ERROR)
          else if links + 1 == MAXLINKS then Failed(ELOOP)
          else Follow(t, if IsAbs(target) then t.root else cur, Segments(target) + rest, links + 1, o)
        else Follow(t, next, rest, links, o)
  }

  /** What `lookupPath(path, opts)` means from the working directory `cwd`. */
  ghost function Denotes(t: Tree, cwd: string, path: string, o: Options): (r: Outcome)
    requires t.Valid()
    ensures r.Found? ==> r.node in t.nodes
    ensures r.Absent? ==> o.noentOkay
    ensures r.Failed? ==> r.errno > 0
  {
    if path == "" then Failed(ENOENT)
    else Follow(t, t.root, Segments(if IsAbs(path) then path else cwd + "/" + path), 0, o)
  }

  /** While every link has a target, no walk ends in a TypeError. */
  lemma {:induction false} NamedLinksNeverThrow(t: Tree, cur: Node, parts: seq<string>, links: nat, o: Options)
    requires t.Valid() && LinksNamed(t) && cur in t.nodes && links < MAXLINKS
    ensures Follow(t, cur, parts, links, o) != Failed(TYPE_ERROR)
    decreases MAXLINKS - links, |parts|
  {
    hide Tree.Valid, Tree.Entry;
    if parts != [] && !(|parts| == 1 && o.parent) {
      var rest := parts[1..];
      LiveParts(t, cur, parts[0]);
      var next := t.Entry(cur, parts[0]);
      if parts[0] == "." {
        NamedLinksNeverThrow(t, cur, rest, links, o);
      } else if parts[0] == ".." {
        NamedLinksNeverThrow(t, t.nodes[cur].parent, rest, links, o);
      } else if next != null {
        LiveParts(t, next, "");
        if next.kind.Link? && (rest != [] || o.follow) {
          var target := t.nodes[next].link;
          if links + 1 < MAXLINKS {
            LiveRoot(t);
            NamedLinksNeverThrow(t, if IsAbs(target) then t.root else cur, Segments(target) + rest, links + 1, o);
          }
        } else {
          NamedLinksNeverThrow(t, next, rest, links, o);
        }
      }
    }
  }

  lemma LiveRoot(t: Tree)
    requires t.Valid()
    ensures t.root in t.live && t.root in t.nodes
  {
  }

  // ----- Plain paths: names only, no link on the way -----

  /** `node` is reached from `d` by these names through directories, links nowhere but perhaps last. */
  ghost predicate Leads(t: Tree, d: Node, names: seq<string>, node: Node)
    requires t.Valid()
  {
    if names == [] then d == node
    else
      d in t.live && !d.kind.Link? && names[0] != "." && names[0] != ".." && IsPart(names[0]) &&
      t.Entry(d, names[0]) != null && Leads(t, t.Entry(d, names[0]), names[1..], node)
  }

  lemma {:induction false} LeadsSnoc(t: Tree, d: Node, names: seq<string>, node: Node, nm: string)
    requires t.Valid() && d in t.live && Leads(t, d, names, node) && !node.kind.Link?
    requires node in t.nodes && IsPart(nm) && nm != "." && nm != ".." && t.Entry(node, nm) != null
    ensures node in t.live && Leads(t, d, names + [nm], t.Entry(node, nm)) && t.Entry(node, nm) in t.live
    decreases names
  {
    if names == [] {
      LiveParts(t, d, nm);
    } else {
      LiveParts(t, d, names[0]);
      assert (names + [nm])[1..] == names[1..] + [nm];
      LeadsSnoc(t, t.Entry(d, names[0]), names[1..], node, nm);
    }
  }

  lemma {:induction false} LeadsLive(t: Tree, d: Node, names: seq<string>, node: Node)
    requires t.Valid() && d in t.live && Leads(t, d, names, node)
    ensures node in t.live && AllParts(names) && Names(names)
    decreases names
  {
    if names != [] {
      LiveParts(t, d, names[0]);
      LeadsLive(t, t.Entry(d, names[0]), names[1..], node);
      assert forall i :: 0 < i < |names| ==> names[i] == names[1..][i - 1];
    }
  }

  /** The last step of a plain path goes from the node's parent to the node. */
  lemma {:induction false} LeadsParent(t: Tree, d: Node, names: seq<string>, node: Node)
    requires t.Valid() && d in t.live && Leads(t, d, names, node) && names != [] && node in t.nodes
    ensures Leads(t, d, names[..|names| - 1], t.nodes[node].parent) && !t.nodes[node].parent.kind.Link?
    ensures node != t.root && t.nodes[node].name == names[|names| - 1]
    decreases names
  {
    LiveParts(t, d, names[0]);
    var e := t.Entry(d, names[0]);
    assert t.Lists(d);
    assert names[0] in t.nodes[d].contents by {
      assert names[0] != "/" by {
        assert "/"[0] in "/";
      }
    }
    assert t.ListsAs(d, names[0]);
    if |names| > 1 {
      LeadsParent(t, e, names[1..], node);
      assert names[1..][..|names| - 2] == names[..|names| - 1][1..];
    }
  }

  /** A plain path in front changes nothing but where the rest starts. */
  lemma {:induction false} FollowPlain(t: Tree, d: Node, names: seq<string>, node: Node,
                                       parts: seq<string>, links: nat, o: Options)
    requires t.Valid() && d in t.live && Leads(t, d, names, node) && node in t.live && !node.kind.Link?
    requires parts != [] && links < MAXLINKS
    ensures Follow(t, d, names + parts, links, o) == Follow(t, node, parts, links, o)
    decreases names
  {
    if names == [] {
      assert names + parts == parts;
    } else {
      LiveParts(t, d, names[0]);
      assert (names + parts)[1..] == names[1..] + parts;
      FollowPlain(t, t.Entry(d, names[0]), names[1..], node, parts, links, o);
    }
  }

  /** A node has one plain path. */
  lemma {:induction false} LeadsUnique(t: Tree, a: seq<string>, b: seq<string>, node: Node)
    requires t.Valid() && Leads(t, t.root, a, node) && Leads(t, t.root, b, node) && node in t.nodes
    ensures a == b
    decreases |a| + |b|
  {
    if a != [] {
      LeadsParent(t, t.root, a, node);
    }
    if b != [] {
      LeadsParent(t, t.root, b, node);
    }
    if a != [] && b != [] {
      assert t.HasParent(node);
      LeadsUnique(t, a[..|a| - 1], b[..|b| - 1], t.nodes[node].parent);
      assert a == a[..|a| - 1] + [a[|a| - 1]] && b == b[..|b| - 1] + [b[|b| - 1]];
    }
  }

  /** The root is the only node on a plain path from the root that is its own parent. */
  lemma {:induction false} OnlyRootIsItsParent(t: Tree, names: seq<string>, node: Node)
    requires t.Valid() && Leads(t, t.root, names, node) && node in t.nodes && t.nodes[node].parent == node
    ensures names == [] && node == t.root
    decreases names
  {
    if names != [] {
      LeadsParent(t, t.root, names, node);
      OnlyRootIsItsParent(t, names[..|names| - 1], node);
    }
  }

  /** One step up a plain path: nothing to go up to exactly at the root. */
  lemma LeadsUp(t: Tree, names: seq<string>, node: Node)
    requires t.Valid() && Leads(t, t.root, names, node) && node in t.nodes
    ensures node in t.live && t.nodes[node].parent in t.live && t.nodes[node].parent in t.nodes
    ensures t.nodes[node].parent == node <==> names == []
    ensures names == [] ==> node == t.root
    ensures names != [] ==>
              var up := names[..|names| - 1];
              && Dirname(Canon(names)) == Canon(up)
              && Leads(t, t.root, up, t.nodes[node].parent) && !t.nodes[node].parent.kind.Link?
  {
    LeadsLive(t, t.root, names, node);
    LiveRoot(t);
    LiveParts(t, node, "");
    hide Tree.Valid, Tree.Entry, Leads;
    if names != [] {
      if t.nodes[node].parent == node {
        OnlyRootIsItsParent(t, names, node);
      }
      LeadsParent(t, t.root, names, node);
      LeadsLive(t, t.root, names[..|names| - 1], t.nodes[node].parent);
      DirnameCanon(names[..|names| - 1], names[|names| - 1]);
      assert names[..|names| - 1] + [names[|names| - 1]] == names;
    }
  }

  lemma RelativeHasParts(path: string)
    requires path != "" && !IsAbs(path)
    ensures Segments(path) != []
  {
    var pieces := Split(path);
    assert pieces[0] != "" && NonEmpty(pieces) == [pieces[0]] + NonEmpty(pieces[1..]);
  }

  /** Restarting at the root with ".." already spent: the rest of the path is all that is left. */
  lemma RestartAtRoot(rest: seq<string>)
    requires AllParts(rest)
    ensures Segments(Dirname(Canon([])) + "/" + Join(rest)) == rest
  {
    DirnameCanon([], "x");
    SegmentsConcat(Canon([]), Join(rest));
    SegmentsCanon([]);
    SegmentsJoin(rest);
  }

  /** The text a symlink is replaced by: from the root, or from the directory the link sits in. */
  function Retargeted(dir: string, target: string, rest: seq<string>): string {
    (if IsAbs(target) then target else dir + "/" + target) + "/" + Join(rest)
  }

  lemma RetargetedParts(names: seq<string>, target: string, rest: seq<string>)
    requires AllParts(names) && AllParts(rest)
    ensures Segments(Retargeted(Canon(names), target, rest)) ==
              (if IsAbs(target) then Segments(target) + rest else names + (Segments(target) + rest))
  {
    SegmentsJoin(rest);
    if IsAbs(target) {
      SegmentsConcat(target, Join(rest));
    } else {
      SegmentsConcat(Canon(names) + "/" + target, Join(rest));
      SegmentsConcat(Canon(names), target);
      SegmentsCanon(names);
      assert names + Segments(target) + rest == names + (Segments(target) + rest);
    }
  }

  /** Restarting at the root with the new text goes on from the link's directory. */
  lemma RestartAtLink(t: Tree, names: seq<string>, cur: Node, target: string, rest: seq<string>, links: nat, o: Options)
    requires t.Valid() && Leads(t, t.root, names, cur) && cur in t.live && !cur.kind.Link?
    requires target != "" && AllParts(rest) && links < MAXLINKS
    ensures Follow(t, t.root, Segments(Retargeted(Canon(names), target, rest)), links, o)
         == Follow(t, if IsAbs(target) then t.root else cur, Segments(target) + rest, links, o)
  {
    hide Segments, Follow, Retargeted;
    LeadsLive(t, t.root, names, cur);
    RetargetedParts(names, target, rest);
    if !IsAbs(target) {
      RelativeHasParts(target);
      FollowPlain(t, t.root, names, cur, Segments(target) + rest, links, o);
    }
  }

  /** An entry other than the root knows its directory and its name. */
  lemma EntryPlace(t: Tree, d: Node, nm: string)
    requires t.Valid() && d in t.nodes && t.Entry(d, nm) != null
    ensures t.Entry(d, nm) in t.live && t.Entry(d, nm) in t.nodes
    ensures t.nodes[t.Entry(d, nm)].parent == d && t.nodes[t.Entry(d, nm)].name == nm
    ensures nm != "/" ==> t.Entry(d, nm) != t.root
  {
    assert t.Lists(d);
    if nm in t.nodes[d].contents {
      assert t.ListsAs(d, nm);
    }
  }

  /** What the walker returns for an outcome: the node with the path that leads to it, nothing, or an error. */
  ghost predicate Answers(t: Tree, d: Outcome, o: Options, outPath: string, node: Node?, errno: nat)
    requires t.Valid()
  {
    && (match d
        case Found(n) => node == n && errno == 0
        case Absent => node == null && errno == 0
        case Failed(e) => node == null && errno == e)
    && (node != null ==>
          && node in t.live && node in t.nodes && (o.parent ==> !node.kind.Link?)
          && exists names :: outPath == Canon(names) && Leads(t, t.root, names, node))
  }

  // ----- The walker's state -----

  /** At `cur`, reached by `names` and spelled `path`, with `rest` to go, and all of it means `d`. */
  ghost predicate Walking(t: Tree, d: Outcome, cur: Node, names: seq<string>, path: string,
                          rest: seq<string>, links: nat, o: Options)
  {
    && t.Valid() && cur in t.live && cur in t.nodes && links < MAXLINKS && AllParts(rest)
    && Leads(t, t.root, names, cur) && path == Canon(names)
    && (rest != [] || o.parent ==> !cur.kind.Link?)
    && d == Follow(t, cur, rest, links, o)
  }

  lemma WalkStart(t: Tree, d: Outcome, parts: seq<string>, links: nat, o: Options)
    requires t.Valid() && links < MAXLINKS && AllParts(parts) && d == Follow(t, t.root, parts, links, o)
    ensures Walking(t, d, t.root, [], "/", parts, links, o)
  {
  }

  lemma WalkHere(t: Tree, d: Outcome, cur: Node, names: seq<string>, path: string, rest: seq<string>, links: nat,
                 o: Options)
    requires Walking(t, d, cur, names, path, rest, links, o)
    ensures cur in t.live && cur in t.nodes
  {
  }

  lemma WalkDot(t: Tree, d: Outcome, cur: Node, names: seq<string>, path: string, rest: seq<string>, links: nat,
                o: Options)
    requires Walking(t, d, cur, names, path, rest, links, o) && rest != [] && !(|rest| == 1 && o.parent)
             && rest[0] == "."
    ensures Walking(t, d, cur, names, path, rest[1..], links, o)
  {
    hide Tree.Valid, Leads, Canon;
  }

  lemma WalkUp(t: Tree, d: Outcome, cur: Node, names: seq<string>, path: string, rest: seq<string>, links: nat,
               o: Options)
    requires Walking(t, d, cur, names, path, rest, links, o) && rest != [] && !(|rest| == 1 && o.parent)
             && rest[0] == ".."
    ensures var up := t.nodes[cur].parent;
            if up == cur then
              && Segments(Dirname(path) + "/" + Join(rest[1..])) == rest[1..]
              && d == Follow(t, t.root, rest[1..], links, o)
            else names != [] && Walking(t, d, up, names[..|names| - 1], Dirname(path), rest[1..], links, o)
  {
    hide Tree.Valid, Leads, Canon, Segments, Dirname;
    LeadsUp(t, names, cur);
    if names == [] {
      RestartAtRoot(rest[1..]);
    } else {
      assert t.nodes[cur].parent in t.nodes by {
        LiveParts(t, t.nodes[cur].parent, "");
      }
    }
  }

  lemma WalkName(t: Tree, d: Outcome, cur: Node, names: seq<string>, path: string, rest: seq<string>, links: nat,
                 o: Options)
    requires Walking(t, d, cur, names, path, rest, links, o) && rest != [] && !(|rest| == 1 && o.parent)
    requires rest[0] != "." && rest[0] != ".."
    ensures var next := t.Entry(cur, rest[0]);
            var last := |rest| == 1;
            var here := Normalize(path + "/" + rest[0]);
            if next == null then
              d == if !cur.kind.Dir? then Failed(ENOTDIR) else if last && o.noentOkay then Absent else Failed(ENOENT)
            else
              && next in t.nodes
              && if next.kind.Link? && (!last || o.follow) then
                   d == if t.nodes[next].link == "" then Failed(TYPE_ERROR)
                        else if links + 1 == MAXLINKS then Failed(ELOOP)
                        else Follow(t, t.root, Segments(Retargeted(Dirname(here), t.nodes[next].link, rest[1..])),
                                    links + 1, o)
                 else Walking(t, d, next, names + [rest[0]], here, rest[1..], links, o)
  {
    assert t.root in t.live;
    hide Tree.Valid, Tree.Entry, Leads, Canon, Segments, Dirname, Normalize, Retargeted;
    var next := t.Entry(cur, rest[0]);
    JoinsOn(t, names, cur, rest[0]);
    if next != null {
      LeadsSnoc(t, t.root, names, cur, rest[0]);
      EntryPlace(t, cur, rest[0]);
      if next.kind.Link? && links + 1 < MAXLINKS && t.nodes[next].link != "" {
        RestartAtLink(t, names, cur, t.nodes[next].link, rest[1..], links + 1, o);
      }
    }
  }

  /** What one more name does to the walker's text, and how `dirname` takes it back. */
  lemma JoinsOn(t: Tree, names: seq<string>, cur: Node, nm: string)
    requires t.Valid() && cur in t.live && Leads(t, t.root, names, cur) && IsPart(nm) && nm != "." && nm != ".."
    ensures Normalize(Canon(names) + "/" + nm) == Canon(names + [nm]) && Dirname(Canon(names + [nm])) == Canon(names)
  {
    hide Canon, Dirname, Normalize;
    LeadsLive(t, t.root, names, cur);
    JoinCanon(names, nm);
    DirnameCanon(names, nm);
  }

  lemma WalkEnd(t: Tree, d: Outcome, cur: Node, names: seq<string>, path: string, rest: seq<string>, links: nat,
                o: Options)
    requires Walking(t, d, cur, names, path, rest, links, o) && (rest == [] || (|rest| == 1 && o.parent))
    ensures t.Valid() && Answers(t, d, o, path, cur, 0)
  {
  }

  lemma AnswersNone(t: Tree, d: Outcome, o: Options, path: string, errno: nat)
    requires t.Valid() && d == if errno == 0 then Absent else Failed(errno)
    ensures Answers(t, d, o, path, null, errno)
  {
  }

  /** No entry of a directory on a plain path is its own parent, the root aside. */
  lemma SelfParent(t: Tree, names: seq<string>, d: Node, nm: string)
    requires t.Valid() && d in t.live && d in t.nodes && Leads(t, t.root, names, d)
    requires t.Entry(d, nm) != null && nm != "/"
    ensures t.Entry(d, nm) in t.nodes && t.nodes[t.Entry(d, nm)].parent != t.Entry(d, nm)
  {
    EntryPlace(t, d, nm);
    if t.Entry(d, nm) == d {
      OnlyRootIsItsParent(t, names, d);
    }
  }
}
