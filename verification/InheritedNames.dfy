/**
 Once "__proto__" has been created in a directory, its object inherits from a node: three calls whose
 checks all pass and that part the directories' objects from the index.
 */
module InheritedNames {
  import opened DirTree
  import opened Errno
  import opened FileStore
  import opened Paths
  import opened PathWalk
  import opened RenameConnects
  import opened RenameGuard

  // ----- In any tree -----

  /** A creation that ends in a TypeError leaves an indexed node that its directory's object does not list. */
  lemma ThrowSplitsCreate(t: Tree, d: Node, nm: string, n: Node)
    requires t.Agrees() && d in t.live && d in t.nodes && n !in t.nodes && MakeErrno(t, d, nm) == TYPE_ERROR
    ensures var t' := t.Add(d, nm, n, "");
            && t'.Valid() && d in t'.nodes && n in t'.live && t'.Entry(d, nm) == n && nm !in t'.nodes[d].listing.own
            && !t'.Agrees()
  {
    FreeName(t, d, nm);
    AddAgreesIff(t, d, nm, n, "");
    AddKeepsTree(t, d, nm, n, "");
    hide Tree.Valid, Tree.Shaped, Tree.Agrees;
  }

  /**
   A creation that succeeds under an inherited setter's name stores nothing under that name, and a number
   under "mode", over whatever entry had that name.
   */
  lemma SetterSplitsCreate(t: Tree, d: Node, nm: string, n: Node)
    requires t.Agrees() && d in t.live && d in t.nodes && n !in t.nodes && MakeErrno(t, d, nm) == 0
    requires t.nodes[d].listing.Trapped(nm)
    ensures var t' := t.Add(d, nm, n, "");
            && t'.Valid() && d in t'.nodes && n in t'.live && t'.Entry(d, nm) == n && !t'.Agrees()
            && t'.nodes[d].listing.own == t.nodes[d].listing.own["mode" := null] && nm !in t'.nodes[d].listing.own
  {
    FreeName(t, d, nm);
    AddAgreesIff(t, d, nm, n, "");
    AddKeepsTree(t, d, nm, n, "");
    hide Tree.Valid, Tree.Shaped, Tree.Agrees;
  }

  /**
   A rename that ends in a TypeError leaves its source indexed where it was, and deleted from that
   directory's object (unless it was "__proto__", which the object never listed).
   */
  lemma ThrowSplitsRename(t: Tree, d1: Node, nm1: string, d2: Node, nm2: string, g: Guards)
    requires t.Agrees() && d1 in t.live && d1 in t.nodes && d2 in t.live && d2 in t.nodes
    requires RenameErrno(t, d1, nm1, d2, nm2, g) == TYPE_ERROR
    ensures var src, t' := t.Entry(d1, nm1), Interrupted(t, d1, nm1, d2, nm2);
            && src != null && t'.Valid() && d1 in t'.nodes && src in t'.live && t'.Entry(d1, nm1) == src
            && nm1 !in t'.nodes[d1].listing.own && (t'.Agrees() <==> nm1 == PROTO)
  {
    ChecksNeverThrow(t);
    var src := t.Entry(d1, nm1);
    MayMove(t, d1, nm1, d2, nm2, g);
    MovedAgrees(t, d1, nm1, d2, nm2, g);
    EntryPlace(t, d1, nm1);
    assert t.Shows(d2);
    InterruptedEntry(t, d1, nm1, d2, nm2);
  }

  lemma InterruptedEntry(t: Tree, d1: Node, nm1: string, d2: Node, nm2: string)
    requires t.Valid() && d1 in t.live && d1 in t.nodes && d2 in t.live && d2 in t.nodes
             && Mirrors(t.nodes[d2].listing, t.nodes[d2].contents)
    requires t.nodes[d2].listing.Throws(nm2) && t.Entry(d1, nm1) != null && t.Entry(d1, nm1) != t.root
    ensures var src, t' := t.Entry(d1, nm1), Interrupted(t, d1, nm1, d2, nm2);
            d1 in t'.nodes && src in t'.live && t'.Entry(d1, nm1) == src && nm1 !in t'.nodes[d1].listing.own
  {
    EntryPlace(t, d1, nm1);
    assert t.HasParent(t.Entry(d1, nm1)) && nm2 !in t.nodes[d2].contents;
    hide Tree.Valid;
  }

  lemma EmptiedByThrow(t: Tree, d1: Node, nm1: string, d2: Node, nm2: string, g: Guards)
    requires t.Agrees() && d1 in t.live && d1 in t.nodes && d2 in t.live && d2 in t.nodes
    requires RenameErrno(t, d1, nm1, d2, nm2, g) == TYPE_ERROR && t.nodes[d1].contents.Keys == {nm1}
    requires t.nodes[d1].listing.proto == null
    ensures var src := t.Entry(d1, nm1);
            && src in t.nodes && nm1 in t.nodes[d1].contents && t.nodes[src].name == nm1
            && Interrupted(t, d1, nm1, d2, nm2) == t.With(d1, t.nodes[d1].(listing := EMPTY))
  {
    ChecksNeverThrow(t);
    EntryPlace(t, d1, nm1);
    assert t.Shows(d1) && t.Shows(d2) && t.HasParent(t.Entry(d1, nm1));
    assert t.nodes[d1].listing.Delete(nm1).own == map[];
    hide Tree.Valid, Tree.Shaped;
  }

  /**
   When the source of such a rename was all its directory had, that directory looks empty and can be
   removed. The source stays in the index, in a directory that is no longer there.
   */
  lemma ThrowThenRmdir(t: Tree, top: Node, pn: string, d1: Node, nm1: string, d2: Node, nm2: string, g: Guards)
    requires t.Agrees() && d1 in t.live && d1 in t.nodes && d2 in t.live && d2 in t.nodes && top in t.nodes
    requires RenameErrno(t, d1, nm1, d2, nm2, g) == TYPE_ERROR && t.nodes[d1].contents.Keys == {nm1}
    requires t.nodes[d1].listing.proto == null && t.Entry(top, pn) == d1 && t.nodes[d1].parent != d1
    ensures var t', src := Interrupted(t, d1, nm1, d2, nm2), t.Entry(d1, nm1);
            && t'.Valid() && top in t'.nodes && RmdirErrno(t', top, pn, false) == 0 && pn in t'.nodes[top].contents
            && var t'' := t'.Remove(top, pn);
               && t''.Valid() && src in t''.live && src in t''.nodes && t''.nodes[src].parent == d1 && d1 !in t''.live
  {
    ThrowSplitsRename(t, d1, nm1, d2, nm2, g);
    EntryPlace(t, top, pn);
    assert pn in t.nodes[top].contents;
    var t', src := Interrupted(t, d1, nm1, d2, nm2), t.Entry(d1, nm1);
    EmptiedByThrow(t, d1, nm1, d2, nm2, g);
    EntryPlace(t, d1, nm1);
    hide Interrupted, RenameErrno;
    RemoveKeepsTree(t', top, pn);
    hide Tree.Valid, Tree.Agrees;
  }

  // ----- From an empty file system -----

  ghost function Fresh(r: Node): Tree { Tree(r, map[r := Info(r, "/", map[], EMPTY, "")], {r}) }

  /** A file "/x" and a directory "/d", made in this order. */
  ghost function Plain(r: Node, x: Node, d: Node): Tree { Fresh(r).Add(r, "x", x, "").Add(r, "d", d, "") }

  /** The same after "/d/__proto__" was created. */
  ghost function Inheriting(r: Node, x: Node, d: Node, p: Node): Tree
    requires d != r && d != x
  {
    Plain(r, x, d).Add(d, PROTO, p, "")
  }

  /** The four nodes of these trees. */
  ghost predicate Apart(r: Node, x: Node, d: Node, p: Node) {
    && r != x && r != d && r != p && x != d && x != p && d != p
    && r.kind.Dir? && x.kind.File? && d.kind.Dir? && p.kind.File?
  }

  /** Canonical paths of one and of two parts. */
  lemma ShortPaths(nm: string)
    requires IsPart(nm)
    ensures Canon([]) == "/" && Canon(["d"]) == "/d" && Canon(["x"]) == "/x" && Canon(["d", nm]) == "/d/" + nm
    ensures [] + ["d"] == ["d"] && [] + ["x"] == ["x"] && ["d"] + [nm] == ["d", nm]
    ensures AllParts([]) && AllParts(["d"]) && AllParts(["x"]) && IsPart("d") && IsPart("x")
  {
    JoinSnoc(["d"], nm);
  }

  /** A path of two parts leads to the directory "/d". */
  lemma LeadsToD(t: Tree, d: Node, nm: string)
    requires t.Valid() && t.root in t.nodes && t.Entry(t.root, "d") == d && d in t.live && d.kind.Dir? && IsPart(nm)
    ensures Denotes(t, "/", "/d/" + nm, PARENT) == Found(d)
    ensures Basename("/d/" + nm) == nm && Dirname("/d/" + nm) == "/d"
  {
    ShortPaths(nm);
    CanonText(["d"], nm);
    LiveRoot(t);
    hide *;
    DenotesAbs(t, Canon(["d", nm]));
    StepsTo(t, t.root, "d", [nm], 0, d);
    StopsAt(t, d, nm, 0);
  }

  /** A path of one part leads to the root. */
  lemma LeadsToRoot(t: Tree, nm: string)
    requires t.Valid() && IsPart(nm)
    ensures Denotes(t, "/", Canon([nm]), PARENT) == Found(t.root)
    ensures Basename(Canon([nm])) == nm && Dirname(Canon([nm])) == "/"
  {
    CanonText([], nm);
    assert [] + [nm] == [nm] && Canon([]) == "/" && AllParts([]);
    LiveRoot(t);
    hide *;
    DenotesAbs(t, Canon([nm]));
    StopsAt(t, t.root, nm, 0);
  }

  lemma FreshAgrees(r: Node)
    requires r.kind.Dir?
    ensures Fresh(r).Agrees()
  {
    var t := Fresh(r);
    var none: map<string, Node> := map[];
    assert none - {PROTO} == none;
    assert t.HasParent(r) && t.Hangs(r) && t.Lists(r) && t.Shows(r);
  }

  lemma PlainAgrees(r: Node, x: Node, d: Node, p: Node)
    requires Apart(r, x, d, p)
    ensures var t := Plain(r, x, d);
            && t.Agrees() && t.root == r && t.live == {r, x, d} && t.nodes.Keys == {r, x, d}
            && t.Entry(r, "d") == d && t.Entry(r, "x") == x
            && t.nodes[d] == Info(r, "d", map[], EMPTY, "") && t.nodes[x].parent == r
            && t.nodes[r].listing == PlainObject(map["x" := x, "d" := d], null)
  {
    FreshAgrees(r);
    AddAgreesIff(Fresh(r), r, "x", x, "");
    AddAgreesIff(Fresh(r).Add(r, "x", x, ""), r, "d", d, "");
  }

  /** The tree with "/d/__proto__": it still agrees, and "/d" now inherits. */
  lemma InheritingAgrees(r: Node, x: Node, d: Node, p: Node)
    requires Apart(r, x, d, p)
    ensures var t := Inheriting(r, x, d, p);
            && t.Agrees() && t.Valid() && t.root == r && t.live == {r, x, d, p} && t.nodes.Keys == {r, x, d, p}
            && t.HasParent(x)
            && t.Entry(r, "d") == d && t.Entry(r, "x") == x && t.nodes[x].parent == r && t.nodes[x].name == "x"
            && t.nodes[r].listing == PlainObject(map["x" := x, "d" := d], null)
            && t.nodes[d].contents == map[PROTO := p] && t.nodes[d].listing == PlainObject(map[], p)
            && MknodPathErrno(Plain(r, x, d), "/", "/d/" + PROTO) == 0
  {
    PlainAgrees(r, x, d, p);
    var t := Plain(r, x, d);
    AddAgreesIff(t, d, PROTO, p, "");
    LeadsToD(t, d, PROTO);
    hide Denotes, Basename;
  }

  /**
   `create /d/isFolder`: the assignment to the object throws after the node went into the index, which
   then has an entry that "/d" itself does not list.
   */
  lemma GetterThrowsOnCreate(r: Node, x: Node, d: Node, p: Node, n: Node, nm: string)
    requires Apart(r, x, d, p) && n !in {r, x, d, p} && nm in GETTERS
    ensures var t := Inheriting(r, x, d, p);
            && t.Agrees() && MknodPathErrno(t, "/", "/d/" + nm) == TYPE_ERROR
            && var t' := t.Add(d, nm, n, "");
               && t'.Valid() && d in t'.nodes && n in t'.live && t'.Entry(d, nm) == n && nm !in t'.nodes[d].listing.own
               && !t'.Agrees()
  {
    InheritingAgrees(r, x, d, p);
    var t := Inheriting(r, x, d, p);
    hide Inheriting, Denotes, Basename, Dirname, Tree.Valid, Tree.Agrees, Tree.Add;
    LeadsToD(t, d, nm);
    ThrowSplitsCreate(t, d, nm, n);
  }

  /** `create /d/read`: a success, and "/d" now lists "mode". */
  lemma SetterTakesCreate(r: Node, x: Node, d: Node, p: Node, n: Node, nm: string)
    requires Apart(r, x, d, p) && n !in {r, x, d, p} && nm in SETTERS
    ensures var t := Inheriting(r, x, d, p);
            && t.Agrees() && MknodPathErrno(t, "/", "/d/" + nm) == 0
            && var t' := t.Add(d, nm, n, "");
               && t'.Valid() && d in t'.nodes && n in t'.live && t'.Entry(d, nm) == n
               && t'.nodes[d].listing.own == map["mode" := null]
               && !t'.Agrees()
  {
    InheritingAgrees(r, x, d, p);
    var t := Inheriting(r, x, d, p);
    hide Inheriting, Denotes, Basename, Dirname, Tree.Valid, Tree.Agrees, Tree.Add;
    LeadsToD(t, d, nm);
    SetterSplitsCreate(t, d, nm, n);
  }

  /** The texts of `rename("/x", "/d/...")` pass both guards. */
  lemma OutOfPlaceGuards(nm: string)
    requires nm in GETTERS
    ensures !SaysInside("/", "/x", "/d") && !SaysInside("/", "/d/" + nm, "/")
  {
    ShortPaths(nm);
    CanonResolved("/", ["x"]);
    CanonResolved("/", ["d"]);
    CanonResolved("/", ["d", nm]);
    CanonResolved("/", []);
    SaysInsideIff("/", "/x", "/d");
    SaysInsideIff("/", "/d/" + nm, "/");
  }

  /**
   `rename("/x", "/d/isDevice")`: "x" is deleted from the root's object, then entering "/d" throws, and
   the source goes back into the index under its old parent and name, which no directory lists any more.
   */
  lemma GetterThrowsOnRename(r: Node, x: Node, d: Node, p: Node, nm: string)
    requires Apart(r, x, d, p) && nm in GETTERS
    ensures var t := Inheriting(r, x, d, p);
            && t.Agrees() && RenamePathErrno(t, "/", "/x", "/d/" + nm) == TYPE_ERROR
            && var t' := Interrupted(t, r, "x", d, nm);
               && t'.Valid() && r in t'.nodes && x in t'.live && t'.Entry(r, "x") == x
               && "x" !in t'.nodes[r].listing.own
               && !t'.Agrees()
  {
    InheritingAgrees(r, x, d, p);
    var t := Inheriting(r, x, d, p);
    var g := Guards(false, false, false, false);
    assert RenameErrno(t, r, "x", d, nm, g) == TYPE_ERROR by {
      hide Inheriting, Tree.Valid, Tree.Agrees;
    }
    hide Inheriting, Denotes, Basename, Dirname, SaysInside, IsBusy, RenameErrno, Tree.Entry, Tree.Valid, Tree.Agrees,
         Interrupted;
    ShortPaths(nm);
    LeadsToD(t, d, nm);
    LeadsToRoot(t, "x");
    OutOfPlaceGuards(nm);
    NeverTheRoot(t, r, "x");
    NeverTheRoot(t, d, nm);
    ThrowSplitsRename(t, r, "x", d, nm, g);
  }
}
