/**
 What a rename of two paths does to the tree as a whole: when every node is still connected to the
 root afterwards, and two renames that pass every check and cut a directory off.
 */
module RenameConnects {
  import opened DirTree
  import opened Errno
  import opened FileStore
  import opened Paths
  import opened PathWalk
  import opened RenameGuard
  import opened Rooted

  /** The node a successful rename moves, and the directory it moves it to. */
  ghost function Source(t: Tree, cwd: string, oldPath: string): Node?
    requires t.Valid() && Denotes(t, cwd, oldPath, PARENT).Found?
  {
    t.Entry(Denotes(t, cwd, oldPath, PARENT).node, Basename(oldPath))
  }

  /** The tree after a rename that succeeds. */
  ghost function After(t: Tree, cwd: string, oldPath: string, newPath: string): Tree
    requires t.Valid() && Denotes(t, cwd, oldPath, PARENT).Found? && Denotes(t, cwd, newPath, PARENT).Found?
  {
    Renamed(t, Denotes(t, cwd, oldPath, PARENT).node, Basename(oldPath),
            Denotes(t, cwd, newPath, PARENT).node, Basename(newPath))
  }

  lemma SucceededFound(t: Tree, cwd: string, oldPath: string, newPath: string)
    requires t.Valid() && IsAbs(cwd) && RenamePathErrno(t, cwd, oldPath, newPath) == 0
    ensures var p1, p2 := Denotes(t, cwd, oldPath, PARENT), Denotes(t, cwd, newPath, PARENT);
            && p1.Found? && p2.Found? && p1.node in t.live && p2.node in t.live && p1.node in t.nodes
            && p2.node in t.nodes
            && Source(t, cwd, oldPath) != null
  {
    hide Follow, Denotes, Tree.Valid, Tree.Entry, SaysInside, IsBusy, MoveErrno, DeleteErrno, CreateErrno, Leads;
    ChecksNeverThrow(t);
    var f := DenotesLeads(t, cwd, oldPath, PARENT);
    var p := DenotesLeads(t, cwd, newPath, PARENT);
  }

  /**
   For every pair of paths, links, "." and ".." among their parts included: a rename that succeeds
   keeps all nodes connected to the root if and only if the directory the new path leads to is not the
   moved node or below it (or both paths name the same node, which moves nothing).
   */
  lemma RenameKeepsConnectedIff(t: Tree, cwd: string, oldPath: string, newPath: string)
    requires t.Valid() && IsAbs(cwd) && AllConnected(t) && RenamePathErrno(t, cwd, oldPath, newPath) == 0
    ensures Denotes(t, cwd, oldPath, PARENT).Found? && Denotes(t, cwd, newPath, PARENT).Found?
    ensures var d := Denotes(t, cwd, newPath, PARENT).node;
            && d in t.nodes && After(t, cwd, oldPath, newPath).Shaped()
            && (AllConnected(After(t, cwd, oldPath, newPath)) <==>
                Source(t, cwd, oldPath) == t.Entry(d, Basename(newPath)) || !Below(t, d, Source(t, cwd, oldPath)))
  {
    SucceededFound(t, cwd, oldPath, newPath);
    hide Follow, SaysInside, IsBusy, RenameErrno, Tree.Move;
    var p1, p2 := Denotes(t, cwd, oldPath, PARENT).node, Denotes(t, cwd, newPath, PARENT).node;
    var nm1, nm2 := Basename(oldPath), Basename(newPath);
    NodeRenameConnects(t, p1, nm1, p2, nm2,
                       Guards(SaysInside(cwd, oldPath, Dirname(newPath)), SaysInside(cwd, newPath, Dirname(oldPath)),
                              IsBusy(t, cwd, p1, nm1), IsBusy(t, cwd, p2, nm2)));
  }

  lemma NodeRenameConnects(t: Tree, d1: Node, nm1: string, d2: Node, nm2: string, g: Guards)
    requires t.Valid() && AllConnected(t) && d1 in t.live && d2 in t.live && d1 in t.nodes && d2 in t.nodes
    requires t.Entry(d1, nm1) != null && RenameErrno(t, d1, nm1, d2, nm2, g) == 0
    ensures var t', src := Renamed(t, d1, nm1, d2, nm2), t.Entry(d1, nm1);
            t'.Shaped() && (AllConnected(t') <==> src == t.Entry(d2, nm2) || !Below(t, d2, src))
  {
    var src := t.Entry(d1, nm1);
    EntryPlace(t, d1, nm1);
    if src != t.Entry(d2, nm2) {
      MayMove(t, d1, nm1, d2, nm2, g);
      hide Tree.Move, MoveErrno, RenameErrno, Movable;
      MoveKeepsConnectedIff(t, src, d2, nm2);
    }
  }

  // ----- The same in terms of paths -----

  /** Whatever text led to a node, there is a plain path to it. */
  lemma {:induction false} FollowLeads(t: Tree, cur: Node, names: seq<string>, parts: seq<string>, links: nat,
                                       o: Options)
    returns (end: seq<string>)
    requires t.Valid() && cur in t.live && cur in t.nodes && links < MAXLINKS && Leads(t, t.root, names, cur)
    requires AllParts(parts) && (parts != [] ==> !cur.kind.Link?) && Follow(t, cur, parts, links, o).Found?
    ensures Leads(t, t.root, end, Follow(t, cur, parts, links, o).node)
    decreases MAXLINKS - links, |parts|
  {
    end := names;
    if parts != [] && !(|parts| == 1 && o.parent) {
      var rest := parts[1..];
      assert IsPart(parts[0]);
      LiveParts(t, cur, parts[0]);
      LiveRoot(t);
      if parts[0] == "." {
        end := FollowLeads(t, cur, names, rest, links, o);
      } else if parts[0] == ".." {
        LeadsUp(t, names, cur);
        LiveParts(t, t.nodes[cur].parent, "");
        end := FollowLeads(t, t.nodes[cur].parent, if names == [] then [] else names[..|names| - 1], rest, links, o);
      } else {
        var next := t.Entry(cur, parts[0]);
        LeadsSnoc(t, t.root, names, cur, parts[0]);
        EntryPlace(t, cur, parts[0]);
        if next.kind.Link? && (rest != [] || o.follow) {
          var target := t.nodes[next].link;
          if IsAbs(target) {
            LiveParts(t, t.root, "");
            end := FollowLeads(t, t.root, [], Segments(target) + rest, links + 1, o);
          } else {
            end := FollowLeads(t, cur, names, Segments(target) + rest, links + 1, o);
          }
        } else {
          end := FollowLeads(t, next, names + [parts[0]], rest, links, o);
        }
      }
    }
  }

  lemma RootIsDir(t: Tree)
    requires t.Valid()
    ensures t.root.kind.Dir?
  {
  }

  lemma DenotesLeads(t: Tree, cwd: string, path: string, o: Options) returns (names: seq<string>)
    requires t.Valid() && Denotes(t, cwd, path, o).Found?
    ensures Leads(t, t.root, names, Denotes(t, cwd, path, o).node) && Denotes(t, cwd, path, o).node in t.live
  {
    hide Follow, Tree.Valid;
    LiveRoot(t);
    LiveParts(t, t.root, "");
    assert !t.root.kind.Link? && Leads(t, t.root, [], t.root) by {
      RootIsDir(t);
    }
    names := FollowLeads(t, t.root, [], Segments(if IsAbs(path) then path else cwd + "/" + path), 0, o);
    LeadsLive(t, t.root, names, Denotes(t, cwd, path, o).node);
  }

  /** A directory lies at or below an entry exactly when its plain path begins with the entry's. */
  lemma BelowIffEntry(t: Tree, f: seq<string>, d1: Node, nm: string, p: seq<string>, d2: Node)
    requires t.Valid() && d1 in t.live && d1 in t.nodes && d2 in t.nodes && Leads(t, t.root, f, d1)
             && Leads(t, t.root, p, d2)
    requires t.Entry(d1, nm) != null && t.Entry(d1, nm) != t.root
    ensures Below(t, d2, t.Entry(d1, nm)) <==> f + [nm] <= p
  {
    var n := t.Entry(d1, nm);
    EntryPlace(t, d1, nm);
    LiveRoot(t);
    hide Tree.Valid, Tree.Entry;
    if f + [nm] <= p {
      LeadsLive(t, t.root, p, d2);
      assert p[|f|] == nm && IsPart(nm);
      LeadsSnoc(t, t.root, f, d1, nm);
      BelowIffPrefix(t, f + [nm], n, p, d2);
    }
    if k: nat :| Up(t, d2, k) == n {
      UpAlong(t, p, d2, k);
      var q := p[..|p| - if k <= |p| then k else |p|];
      LeadsParent(t, t.root, q, n);
      LeadsUnique(t, q[..|q| - 1], f, d1);
      assert q == f + [nm];
    }
  }

  /**
   The condition as a caller can read it off the paths `lookupPath` answers for the two parents: a
   rename that succeeds cuts nodes off exactly when the plain path of the target's directory begins
   with the plain path of the source.
   */
  lemma RenameDetachesIff(t: Tree, cwd: string, oldPath: string, newPath: string)
    returns (f: seq<string>, p: seq<string>)
    requires t.Valid() && IsAbs(cwd) && AllConnected(t) && RenamePathErrno(t, cwd, oldPath, newPath) == 0
    ensures Denotes(t, cwd, oldPath, PARENT).Found? && Denotes(t, cwd, newPath, PARENT).Found?
    ensures Leads(t, t.root, f, Denotes(t, cwd, oldPath, PARENT).node)
    ensures Leads(t, t.root, p, Denotes(t, cwd, newPath, PARENT).node)
    ensures var d := Denotes(t, cwd, newPath, PARENT).node;
            && d in t.nodes && After(t, cwd, oldPath, newPath).Shaped()
            && (!AllConnected(After(t, cwd, oldPath, newPath)) <==>
                Source(t, cwd, oldPath) != t.Entry(d, Basename(newPath)) && f + [Basename(oldPath)] <= p)
  {
    SucceededFound(t, cwd, oldPath, newPath);
    SucceededNotRoot(t, cwd, oldPath, newPath);
    hide Follow, RenamePathErrno, Renamed, Tree.Valid, Tree.Entry;
    RenameKeepsConnectedIff(t, cwd, oldPath, newPath);
    f := DenotesLeads(t, cwd, oldPath, PARENT);
    p := DenotesLeads(t, cwd, newPath, PARENT);
    var d := Denotes(t, cwd, newPath, PARENT).node;
    if Source(t, cwd, oldPath) != t.Entry(d, Basename(newPath)) {
      BelowIffEntry(t, f, Denotes(t, cwd, oldPath, PARENT).node, Basename(oldPath), p, d);
    }
  }

  lemma SucceededNotRoot(t: Tree, cwd: string, oldPath: string, newPath: string)
    requires t.Valid() && IsAbs(cwd) && RenamePathErrno(t, cwd, oldPath, newPath) == 0
    ensures Denotes(t, cwd, oldPath, PARENT).Found? && Denotes(t, cwd, newPath, PARENT).Found?
    ensures Denotes(t, cwd, newPath, PARENT).node in t.nodes
    ensures Source(t, cwd, oldPath) != t.Entry(Denotes(t, cwd, newPath, PARENT).node, Basename(newPath)) ==>
              Source(t, cwd, oldPath) != t.root
  {
    SucceededFound(t, cwd, oldPath, newPath);
    hide Follow, SaysInside, IsBusy, RenameErrno, Tree.Valid, Tree.Entry, Basename, Dirname, Denotes;
    var p1, p2 := Denotes(t, cwd, oldPath, PARENT).node, Denotes(t, cwd, newPath, PARENT).node;
    var nm1, nm2 := Basename(oldPath), Basename(newPath);
    if t.Entry(p1, nm1) != t.Entry(p2, nm2) {
      MovedNotRoot(t, p1, nm1, p2, nm2,
                   Guards(SaysInside(cwd, oldPath, Dirname(newPath)), SaysInside(cwd, newPath, Dirname(oldPath)),
                          IsBusy(t, cwd, p1, nm1), IsBusy(t, cwd, p2, nm2)));
    }
  }

  lemma MovedNotRoot(t: Tree, d1: Node, nm1: string, d2: Node, nm2: string, g: Guards)
    requires t.Valid() && d1 in t.live && d2 in t.live && d1 in t.nodes && d2 in t.nodes
    requires t.Entry(d1, nm1) != null && RenameErrno(t, d1, nm1, d2, nm2, g) == 0
             && t.Entry(d1, nm1) != t.Entry(d2, nm2)
    ensures t.Entry(d1, nm1) != t.root
  {
    MayMove(t, d1, nm1, d2, nm2, g);
  }

  // ----- Renaming back -----

  /**
   Once `rename(oldPath, newPath)` has moved an entry to a free name, and as long as both texts still
   lead to the same directories, `rename(newPath, oldPath)` fails only for a directory that has become
   the working directory or on an inherited getter, and restores the tree exactly if neither
   directory's prototype gets in the way.
   */
  lemma RenamePathBack(t: Tree, cwd: string, oldPath: string, newPath: string, d1: Node, d2: Node)
    requires t.Agrees() && IsAbs(cwd) && RenamePathErrno(t, cwd, oldPath, newPath) == 0
    requires Denotes(t, cwd, oldPath, PARENT) == Found(d1) && Denotes(t, cwd, newPath, PARENT) == Found(d2)
    requires d1 in t.nodes && d2 in t.nodes && t.Entry(d2, Basename(newPath)) == null && Basename(newPath) != "/"
    requires d2 != t.Entry(d1, Basename(oldPath))
    requires var t' := Renamed(t, d1, Basename(oldPath), d2, Basename(newPath));
             && t'.Valid() && Denotes(t', cwd, oldPath, PARENT) == Found(d1)
             && Denotes(t', cwd, newPath, PARENT) == Found(d2)
    ensures var t', src := Renamed(t, d1, Basename(oldPath), d2, Basename(newPath)), t.Entry(d1, Basename(oldPath));
            && src != null && d1 in t'.nodes && d2 in t'.nodes && src in t.nodes && t.HasParent(src)
            && RenamePathErrno(t', cwd, newPath, oldPath) ==
                 (if src.kind.Dir? && IsBusy(t', cwd, d2, Basename(newPath)) then EBUSY
                  else if Basename(oldPath) in GETTERS
                          && (t.nodes[d1].listing.proto != null || (d1 == d2 && Basename(newPath) == PROTO))
                  then TYPE_ERROR
                  else 0)
            && (Renamed(t', d2, Basename(newPath), d1, Basename(oldPath)) == t <==>
                Traceless(t, src, d2, Basename(newPath)))
  {
    SucceededFound(t, cwd, oldPath, newPath);
    var nm1, nm2 := Basename(oldPath), Basename(newPath);
    var t' := Renamed(t, d1, nm1, d2, nm2);
    hide Follow, Denotes, SaysInside, IsBusy, RenameErrno, Renamed, Basename, Dirname, Tree.Valid, Tree.Entry,
         Traceless;
    RenameBackRestores(t, d1, nm1, d2, nm2,
                       Guards(SaysInside(cwd, oldPath, Dirname(newPath)), SaysInside(cwd, newPath, Dirname(oldPath)),
                              IsBusy(t, cwd, d1, nm1), IsBusy(t, cwd, d2, nm2)),
                       IsBusy(t', cwd, d2, nm2), IsBusy(t', cwd, d1, nm1));
  }

  // ----- Two renames that pass every check and cut a directory off -----

  function Holding(names: map<string, Node>): PlainObject { PlainObject(names, null) }

  /** "/a" with a hidden directory "/a/.h" in it. */
  ghost function HiddenTree(r: Node, a: Node, h: Node): Tree {
    Tree(r,
         map[r := Info(r, "/", map["a" := a], Holding(map["a" := a]), ""),
             a := Info(r, "a", map[".h" := h], Holding(map[".h" := h]), ""),
             h := Info(a, ".h", map[], EMPTY, "")],
         {r, a, h})
  }

  /** A directory "/a" and a symlink "/l" to it. */
  ghost function LinkTree(r: Node, a: Node, l: Node): Tree {
    Tree(r,
         map[r := Info(r, "/", map["a" := a, "l" := l], Holding(map["a" := a, "l" := l]), ""),
             a := Info(r, "a", map[], EMPTY, ""),
             l := Info(r, "l", map[], EMPTY, "/a")],
         {r, a, l})
  }

  lemma HiddenTreeValid(r: Node, a: Node, h: Node)
    requires r != a && r != h && a != h && r.kind.Dir? && a.kind.Dir? && h.kind.Dir?
    ensures HiddenTree(r, a, h).Agrees() && AllConnected(HiddenTree(r, a, h))
    ensures Below(HiddenTree(r, a, h), h, a)
    ensures var t := HiddenTree(r, a, h);
            && t.root == r && t.live == {r, a, h} && t.nodes.Keys == {r, a, h} && t.nodes[a].parent == r
            && t.Entry(r, "a") == a && t.Entry(a, ".h") == h && t.Entry(h, "x") == null && t.nodes[h].listing == EMPTY
  {
    var t := HiddenTree(r, a, h);
    assert t.HasParent(r) && t.HasParent(a) && t.HasParent(h);
    assert map["a" := a] - {PROTO} == map["a" := a] && map[".h" := h] - {PROTO} == map[".h" := h];
    assert t.Hangs(r) && t.Hangs(a) && t.Hangs(h);
    assert t.Lists(r) && t.Lists(a) && t.Lists(h);
    assert t.Shows(r) && t.Shows(a) && t.Shows(h);
    assert Up(t, r, 0) == r && Up(t, a, 1) == r && Up(t, h, 1) == a;
    assert Up(t, h, 2) == Up(t, a, 1);
  }

  lemma LinkTreeValid(r: Node, a: Node, l: Node)
    requires r != a && r != l && a != l && r.kind.Dir? && a.kind.Dir? && l.kind.Link?
    ensures LinkTree(r, a, l).Agrees() && AllConnected(LinkTree(r, a, l))
    ensures Below(LinkTree(r, a, l), a, a)
    ensures var t := LinkTree(r, a, l);
            && t.root == r && t.live == {r, a, l} && t.nodes.Keys == {r, a, l} && t.nodes[a].parent == r
            && t.nodes[l].link == "/a" && t.Entry(r, "a") == a && t.Entry(r, "l") == l && t.Entry(a, "x") == null
            && t.nodes[a].listing == EMPTY
  {
    var t := LinkTree(r, a, l);
    assert t.HasParent(r) && t.HasParent(a) && t.HasParent(l);
    assert map["a" := a, "l" := l] - {PROTO} == map["a" := a, "l" := l];
    assert t.Hangs(r) && t.Hangs(a) && t.Hangs(l);
    assert t.Lists(r) && t.Lists(a) && t.Lists(l);
    assert t.Shows(r) && t.Shows(a) && t.Shows(l);
    assert Up(t, r, 0) == r && Up(t, a, 1) == r && Up(t, l, 1) == r && Up(t, a, 0) == a;
  }

  /** Path texts in their canonical form: parts, last part, directory. */
  lemma CanonText(dir: seq<string>, name: string)
    requires AllParts(dir) && IsPart(name)
    ensures var path := Canon(dir + [name]);
            && IsAbs(path) && path != "" && Segments(path) == dir + [name]
            && Basename(path) == name && Dirname(path) == Canon(dir)
  {
    assert AllParts(dir + [name]);
    SegmentsCanon(dir + [name]);
    DirnameCanon(dir, name);
  }

  lemma DenotesAbs(t: Tree, path: string)
    requires t.Valid() && IsAbs(path)
    ensures t.root in t.live && Denotes(t, "/", path, PARENT) == Follow(t, t.root, Segments(path), 0, PARENT)
  {
    LiveRoot(t);
  }

  lemma StopsAt(t: Tree, cur: Node, last: string, links: nat)
    requires t.Valid() && cur in t.live && links < MAXLINKS
    ensures Follow(t, cur, [last], links, PARENT) == Found(cur)
  {
  }

  lemma StepsTo(t: Tree, cur: Node, nm: string, rest: seq<string>, links: nat, next: Node)
    requires t.Valid() && cur in t.live && cur in t.nodes && links < MAXLINKS && rest != [] && nm != "." && nm != ".."
    requires t.Entry(cur, nm) == next && next in t.live && !next.kind.Link?
    ensures Follow(t, cur, [nm] + rest, links, PARENT) == Follow(t, next, rest, links, PARENT)
  {
    assert ([nm] + rest)[1..] == rest;
  }

  lemma FollowsLink(t: Tree, cur: Node, nm: string, rest: seq<string>, links: nat, link: Node)
    requires t.Valid() && cur in t.live && cur in t.nodes && links + 1 < MAXLINKS && rest != [] && nm != "."
             && nm != ".."
    requires t.Entry(cur, nm) == link && link in t.nodes && link.kind.Link? && IsAbs(t.nodes[link].link)
    ensures t.root in t.live
    ensures Follow(t, cur, [nm] + rest, links, PARENT)
         == Follow(t, t.root, Segments(t.nodes[link].link) + rest, links + 1, PARENT)
  {
    LiveRoot(t);
    assert ([nm] + rest)[1..] == rest;
  }

  lemma HiddenWalks(r: Node, a: Node, h: Node)
    requires r != a && r != h && a != h && r.kind.Dir? && a.kind.Dir? && h.kind.Dir?
    ensures var t := HiddenTree(r, a, h);
            && t.Valid() && Denotes(t, "/", Canon(["a"]), PARENT) == Found(r)
            && Denotes(t, "/", Canon(["a", ".h", "x"]), PARENT) == Found(h)
  {
    var t := HiddenTree(r, a, h);
    Texts();
    CanonText([], "a");
    CanonText(["a", ".h"], "x");
    HiddenTreeValid(r, a, h);
    hide *;
    StopsAt(t, r, "a", 0);
    StopsAt(t, h, "x", 0);
    StepsTo(t, a, ".h", ["x"], 0, h);
    StepsTo(t, r, "a", [".h", "x"], 0, a);
    DenotesAbs(t, Canon(["a"]));
    DenotesAbs(t, Canon(["a", ".h", "x"]));
  }

  lemma LinkWalks(r: Node, a: Node, l: Node)
    requires r != a && r != l && a != l && r.kind.Dir? && a.kind.Dir? && l.kind.Link?
    ensures var t := LinkTree(r, a, l);
            && t.Valid() && Denotes(t, "/", Canon(["a"]), PARENT) == Found(r)
            && Denotes(t, "/", Canon(["l", "x"]), PARENT) == Found(a)
  {
    var t := LinkTree(r, a, l);
    Texts();
    CanonText([], "a");
    CanonText(["l"], "x");
    LinkTreeValid(r, a, l);
    assert IsAbs("/a");
    hide *;
    StopsAt(t, r, "a", 0);
    StopsAt(t, a, "x", 1);
    StepsTo(t, r, "a", ["x"], 1, a);
    FollowsLink(t, r, "l", ["x"], 0, l);
    DenotesAbs(t, Canon(["a"]));
    DenotesAbs(t, Canon(["l", "x"]));
  }

  /** A rename of a directory to a new name elsewhere, every check passed. */
  lemma ChecksPass(t: Tree, oldDir: seq<string>, d1: Node, nm1: string, newDir: seq<string>, d2: Node, nm2: string)
    requires t.Valid() && AllConnected(t) && d1 in t.live && d2 in t.live && d1 in t.nodes && d2 in t.nodes
    requires AllParts(oldDir) && AllParts(newDir) && IsPart(nm1) && IsPart(nm2)
    requires Denotes(t, "/", Canon(oldDir + [nm1]), PARENT) == Found(d1)
    requires Denotes(t, "/", Canon(newDir + [nm2]), PARENT) == Found(d2) && !t.nodes[d2].listing.Throws(nm2)
    requires !SaysInside("/", Canon(oldDir + [nm1]), Canon(newDir))
             && !SaysInside("/", Canon(newDir + [nm2]), Canon(oldDir))
    requires var src := t.Entry(d1, nm1);
             && src != null && src.kind.Dir? && src in t.nodes && t.nodes[src].parent != src
             && d2.kind.Dir? && t.Entry(d2, nm2) == null && Below(t, d2, src)
    ensures RenamePathErrno(t, "/", Canon(oldDir + [nm1]), Canon(newDir + [nm2])) == 0
    ensures Renamed(t, d1, nm1, d2, nm2).Shaped() && !AllConnected(Renamed(t, d1, nm1, d2, nm2))
  {
    var g := Guards(false, false, false, false);
    assert RenameErrno(t, d1, nm1, d2, nm2, g) == 0 by {
      hide Tree.Valid, AllConnected, Below, Canon, Denotes, SaysInside;
    }
    CanonText(oldDir, nm1);
    CanonText(newDir, nm2);
    NeverTheRoot(t, d1, nm1);
    NeverTheRoot(t, d2, nm2);
    hide Tree.Valid, Tree.Entry, RenameErrno, SaysInside, IsBusy, Canon, Denotes, Segments, Basename, Dirname, Renamed;
    NodeRenameConnects(t, d1, nm1, d2, nm2, g);
  }

  /** The texts of the hidden-name rename pass both guards: the next name starts with the dot they look for. */
  lemma HiddenGuards()
    ensures !SaysInside("/", Canon(["a"]), Canon(["a", ".h"])) && !SaysInside("/", Canon(["a", ".h", "x"]), Canon([]))
  {
    CanonResolved("/", ["a"]);
    CanonResolved("/", ["a", ".h"]);
    CanonResolved("/", ["a", ".h", "x"]);
    CanonResolved("/", []);
    SaysInsideIff("/", Canon(["a"]), Canon(["a", ".h"]));
    SaysInsideIff("/", Canon(["a", ".h", "x"]), Canon([]));
  }

  /** The texts of the rename through the link do too: as texts, "/l" is not inside "/a". */
  lemma LinkGuards()
    ensures !SaysInside("/", Canon(["a"]), Canon(["l"])) && !SaysInside("/", Canon(["l", "x"]), Canon([]))
  {
    CanonResolved("/", ["a"]);
    CanonResolved("/", ["l"]);
    CanonResolved("/", ["l", "x"]);
    CanonResolved("/", []);
    SaysInsideIff("/", Canon(["a"]), Canon(["l"]));
    SaysInsideIff("/", Canon(["l", "x"]), Canon([]));
  }

  lemma Texts()
    ensures Canon([]) == "/" && Canon(["a"]) == "/a" && Canon(["l"]) == "/l" && Canon(["l", "x"]) == "/l/x"
    ensures Canon(["a", ".h"]) == "/a/.h" && Canon(["a", ".h", "x"]) == "/a/.h/x"
    ensures [] + ["a"] == ["a"] && ["l"] + ["x"] == ["l", "x"] && ["a", ".h"] + ["x"] == ["a", ".h", "x"]
    ensures [".h"] + ["x"] == [".h", "x"] && ["a"] + [".h", "x"] == ["a", ".h", "x"] && ["a"] + ["x"] == ["a", "x"]
    ensures AllParts([]) && AllParts(["l"]) && AllParts(["a", ".h"]) && IsPart("a") && IsPart("x")
  {
  }

  /** `rename("/a", "/a/.h/x")` succeeds, and "/a" is cut off from the root. */
  lemma HiddenNameDetaches(r: Node, a: Node, h: Node)
    requires r != a && r != h && a != h && r.kind.Dir? && a.kind.Dir? && h.kind.Dir?
    ensures var t := HiddenTree(r, a, h);
            && t.Agrees() && AllConnected(t) && RenamePathErrno(t, "/", "/a", "/a/.h/x") == 0
            && var t' := Renamed(t, r, "a", h, "x"); t'.Shaped() && !AllConnected(t')
  {
    HiddenTreeValid(r, a, h);
    assert !EMPTY.Throws("x");
    hide *;
    HiddenWalks(r, a, h);
    HiddenGuards();
    Texts();
    ChecksPass(HiddenTree(r, a, h), [], r, "a", ["a", ".h"], h, "x");
  }

  /** With a symlink "/l" to "/a", `rename("/a", "/l/x")` succeeds, and "/a" becomes its own child. */
  lemma SymlinkDetaches(r: Node, a: Node, l: Node)
    requires r != a && r != l && a != l && r.kind.Dir? && a.kind.Dir? && l.kind.Link?
    ensures var t := LinkTree(r, a, l);
            && t.Agrees() && AllConnected(t) && RenamePathErrno(t, "/", "/a", "/l/x") == 0
            && var t' := Renamed(t, r, "a", a, "x"); t'.Shaped() && !AllConnected(t')
  {
    LinkTreeValid(r, a, l);
    assert !EMPTY.Throws("x");
    hide *;
    LinkWalks(r, a, l);
    LinkGuards();
    Texts();
    ChecksPass(LinkTree(r, a, l), [], r, "a", ["l"], a, "x");
  }

  lemma NeverTheRoot(t: Tree, d: Node, nm: string)
    requires t.Valid() && d in t.nodes && IsPart(nm)
    ensures !IsBusy(t, "/", d, nm)
  {
    forall names | Leads(t, t.root, names, d)
      ensures Canon(names + [nm]) != "/"
    {
      JoinSnoc(names, nm);
    }
  }
}
