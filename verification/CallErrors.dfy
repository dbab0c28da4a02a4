/** Which calls succeed, and which condition ends each of the others in which error. */
module CallErrors {
  import opened DirTree
  import opened Errno
  import opened FileStore
  import opened PathEffects
  import opened Paths
  import opened PathWalk
  import opened PlainPaths
  import opened RenameGuard

  /** A directory's name denotes a directory. */
  ghost predicate HasDir(t: Tree, d: Node, nm: string)
    requires d in t.nodes
  {
    t.Entry(d, nm) != null && t.Entry(d, nm).kind.Dir?
  }

  /** A directory's name denotes a file, a link or a device. */
  ghost predicate HasOther(t: Tree, d: Node, nm: string)
    requires d in t.nodes
  {
    t.Entry(d, nm) != null && !t.Entry(d, nm).kind.Dir?
  }

  /** The name is taken by an accessor without a setter: a prototype was set, and the object has no such entry. */
  ghost predicate MeetsGetter(t: Tree, d: Node, nm: string)
    requires d in t.nodes
  {
    && t.nodes[d].listing.proto != null && nm !in t.nodes[d].listing.own
    && (nm == "isFolder" || nm == "isDevice")
  }

  /** `unlink` removes whatever is no directory. */
  lemma UnlinkErrors(t: Tree, d: Node, nm: string)
    requires d in t.nodes
    ensures var e := DeleteErrno(t, d, nm, false, false);
            && (e == 0 <==> HasOther(t, d, nm))
            && (e == EISDIR <==> HasDir(t, d, nm))
            && (e == ENOENT <==> d.kind.Dir? && t.Entry(d, nm) == null)
            && (e == ENOTDIR <==> !d.kind.Dir?)
  {
  }

  /** `rmdir` removes directories that look empty: not the root or any other own parent, nor where the process is. */
  lemma RmdirErrors(t: Tree, d: Node, nm: string, busy: bool)
    requires d in t.nodes && (t.Entry(d, nm) != null ==> t.Entry(d, nm) in t.nodes)
    ensures var e, n := RmdirErrno(t, d, nm, busy), t.Entry(d, nm);
            && (e == 0 <==> HasDir(t, d, nm) && t.nodes[n].parent != n && !busy && !t.nodes[n].listing.Enumerates())
            && (e == EBUSY <==> HasDir(t, d, nm) && (t.nodes[n].parent == n || busy))
            && (e == ENOTEMPTY <==>
                HasDir(t, d, nm) && t.nodes[n].parent != n && !busy && t.nodes[n].listing.Enumerates())
            && (e == ENOENT <==> d.kind.Dir? && n == null)
            && (e == ENOTDIR <==> !d.kind.Dir? || HasOther(t, d, nm))
  {
  }

  /** `mknod` makes a node under any free name that is neither empty nor "." nor "..". */
  lemma MknodErrors(t: Tree, d: Node, nm: string)
    requires d in t.nodes
    ensures var e, plain := MknodErrno(t, d, nm), nm != "" && nm != "." && nm != "..";
            && (e == EINVAL <==> nm == "")
            && (e == ENOTDIR <==> plain && !d.kind.Dir?)
            && (e == EEXIST <==> nm == "." || nm == ".." || (plain && t.Entry(d, nm) != null))
            && (e == TYPE_ERROR <==> plain && d.kind.Dir? && t.Entry(d, nm) == null && MeetsGetter(t, d, nm))
            && (e == 0 <==> plain && d.kind.Dir? && t.Entry(d, nm) == null && !MeetsGetter(t, d, nm))
  {
  }

  /** `symlink` makes a link under any free name, the dots included, for any target that is not empty. */
  lemma SymlinkErrors(t: Tree, cwd: string, target: string, path: string)
    requires t.Valid() && IsAbs(cwd)
    ensures var e, p := SymlinkPathErrno(t, cwd, target, path), Denotes(t, cwd, path, PARENT);
            && (target == "" ==> e == ENOENT)
            && (target != "" && p.Failed? ==> e == p.errno)
            && (target != "" && p.Found? ==>
                  && (e == ENOTDIR <==> !p.node.kind.Dir?)
                  && (e == EEXIST <==> t.Entry(p.node, Basename(path)) != null)
                  && (e == 0 <==> p.node.kind.Dir? && t.Entry(p.node, Basename(path)) == null
                                  && !MeetsGetter(t, p.node, Basename(path))))
  {
    hide Follow, Tree.Valid;
  }

  /** The node may be taken from where it is: it is not its own parent, and if a directory not where the process is. */
  ghost predicate MayLeave(t: Tree, n: Node, busy: bool)
    requires n in t.nodes
  {
    n.kind.Dir? ==> t.nodes[n].parent != n && !busy
  }

  /**
   When `rename` succeeds: the source is there, the texts pass both guards, and either both names denote
   the same node, or the source may leave and the target's name is free or denotes a node of the same
   sort that may leave and looks empty - and no inherited getter has the name.
   */
  lemma RenameSucceedsIff(t: Tree, d1: Node, nm1: string, d2: Node, nm2: string, g: Guards)
    requires d1 in t.nodes && d2 in t.nodes
    requires t.Entry(d1, nm1) != null ==> t.Entry(d1, nm1) in t.nodes
    requires t.Entry(d2, nm2) != null ==> t.Entry(d2, nm2) in t.nodes
    ensures var src, dst := t.Entry(d1, nm1), t.Entry(d2, nm2);
            RenameErrno(t, d1, nm1, d2, nm2, g) == 0 <==>
              && src != null && !g.sourceAbove && !g.targetAbove
              && (src == dst ||
                  (&& MayLeave(t, src, g.sourceBusy) && d2.kind.Dir? && !MeetsGetter(t, d2, nm2)
                   && (dst != null ==>
                         && (src.kind.Dir? <==> dst.kind.Dir?) && MayLeave(t, dst, g.targetBusy)
                         && (dst.kind.Dir? ==> !t.nodes[dst].listing.Enumerates()))))
  {
  }

  /** Which check fails first decides the error. */
  lemma RenameErrors(t: Tree, d1: Node, nm1: string, d2: Node, nm2: string, g: Guards)
    requires d1 in t.nodes && d2 in t.nodes && t.Entry(d1, nm1) != null && t.Entry(d1, nm1) != t.Entry(d2, nm2)
    requires t.Entry(d1, nm1) in t.nodes && (t.Entry(d2, nm2) != null ==> t.Entry(d2, nm2) in t.nodes)
    ensures var e, src, dst := RenameErrno(t, d1, nm1, d2, nm2, g), t.Entry(d1, nm1), t.Entry(d2, nm2);
            var free := !g.sourceAbove && !g.targetAbove && MayLeave(t, src, g.sourceBusy);
            && (e == EINVAL <==> g.sourceAbove)
            && (e == EBUSY <==>
                !g.sourceAbove && !g.targetAbove
                && (!MayLeave(t, src, g.sourceBusy)
                    || (src.kind.Dir? && dst != null && dst.kind.Dir? && !MayLeave(t, dst, g.targetBusy))))
            && (e == EISDIR <==> free && !src.kind.Dir? && dst != null && dst.kind.Dir?)
            && (e == ENOTDIR <==> free && (!d2.kind.Dir? || (src.kind.Dir? && dst != null && !dst.kind.Dir?)))
            && (e == ENOTEMPTY <==>
                !g.sourceAbove
                && (g.targetAbove
                    || (free && src.kind.Dir? && dst != null && dst.kind.Dir? && MayLeave(t, dst, g.targetBusy)
                        && t.nodes[dst].listing.Enumerates())))
  {
  }

  // ----- The same for paths -----

  /**
   What the two guards of `rename` make of plain paths: into itself or below is EINVAL, onto what lies
   above the source is ENOTEMPTY - except, either way, where the next name on the way down is hidden.
   */
  lemma RenameGuards(t: Tree, cwd: string, f: seq<string>, d1: Node, nm1: string, g: seq<string>, d2: Node, nm2: string)
    requires t.Valid() && IsAbs(cwd) && Leads(t, t.root, f, d1) && !d1.kind.Link?
    requires Leads(t, t.root, g, d2) && !d2.kind.Link? && IsPart(nm1) && IsPart(nm2) && Names([nm1]) && Names([nm2])
    requires d1 in t.nodes && d2 in t.nodes && t.Entry(d1, nm1) != null && t.Entry(d1, nm1) != t.Entry(d2, nm2)
    requires t.Entry(d1, nm1) in t.nodes && (t.Entry(d2, nm2) != null ==> t.Entry(d2, nm2) in t.nodes)
    ensures var from, to := f + [nm1], g + [nm2];
            var e := RenamePathErrno(t, cwd, Canon(from), Canon(to));
            var intoItself := from <= g && (|from| < |g| ==> !Hidden(g[|from|]));
            var ontoAbove := to <= f && (|to| < |f| ==> !Hidden(f[|to|]));
            (e == EINVAL <==> intoItself) && (!intoItself && ontoAbove ==> e == ENOTEMPTY)
  {
    hide *;
    LiveRoot(t);
    LeadsLive(t, t.root, f, d1);
    LeadsLive(t, t.root, g, d2);
    var guards := PlainRename(t, cwd, f, d1, nm1, g, d2, nm2);
    NamesSnoc(f, nm1);
    NamesSnoc(g, nm2);
    PlainGuard(cwd, f + [nm1], g, nm2);
    PlainGuard(cwd, g + [nm2], f, nm1);
    RenameErrors(t, d1, nm1, d2, nm2, guards);
  }

  lemma NamesSnoc(names: seq<string>, nm: string)
    requires Names(names) && AllParts(names) && Names([nm]) && IsPart(nm)
    ensures Names(names + [nm]) && AllParts(names + [nm])
  {
    assert [nm][0] == nm;
  }

  lemma PlainRename(t: Tree, cwd: string, f: seq<string>, d1: Node, nm1: string, g: seq<string>, d2: Node, nm2: string)
    returns (guards: Guards)
    requires t.Valid() && IsAbs(cwd) && Leads(t, t.root, f, d1) && !d1.kind.Link? && Leads(t, t.root, g, d2)
    requires !d2.kind.Link? && d1 in t.nodes && d2 in t.nodes && IsPart(nm1) && IsPart(nm2)
    requires AllParts(f) && AllParts(g)
    ensures RenamePathErrno(t, cwd, Canon(f + [nm1]), Canon(g + [nm2])) == RenameErrno(t, d1, nm1, d2, nm2, guards)
    ensures guards.sourceAbove == SaysInside(cwd, Canon(f + [nm1]), Canon(g))
    ensures guards.targetAbove == SaysInside(cwd, Canon(g + [nm2]), Canon(f))
  {
    PlainParent(t, cwd, f, d1, nm1);
    PlainParent(t, cwd, g, d2, nm2);
    DirnameCanon(f, nm1);
    DirnameCanon(g, nm2);
    hide Tree.Valid, Leads, Canon, Denotes, Basename, Dirname, SaysInside, RenameErrno, IsBusy;
    guards := Guards(SaysInside(cwd, Canon(f + [nm1]), Canon(g)), SaysInside(cwd, Canon(g + [nm2]), Canon(f)),
                     IsBusy(t, cwd, d1, nm1), IsBusy(t, cwd, d2, nm2));
  }

  lemma PlainGuard(cwd: string, above: seq<string>, dir: seq<string>, name: string)
    requires IsAbs(cwd) && above != [] && Names(above) && AllParts(above) && AllParts(dir) && Names(dir) && IsPart(name)
    ensures Dirname(Canon(dir + [name])) == Canon(dir)
    ensures SaysInside(cwd, Canon(above), Canon(dir)) <==>
              above <= dir && (|above| < |dir| ==> !Hidden(dir[|above|]))
  {
    DirnameCanon(dir, name);
    CanonResolved(cwd, above);
    CanonResolved(cwd, dir);
    assert Canon(above) != "" && Canon(dir) != "";
    hide Canon;
    SaysInsideIff(cwd, Canon(above), Canon(dir));
  }

  /** `unlink` of a plain path succeeds exactly if it leads to something that is no directory. */
  lemma UnlinkPathErrors(t: Tree, cwd: string, names: seq<string>, d: Node, nm: string)
    requires t.Valid() && IsAbs(cwd) && Leads(t, t.root, names, d) && !d.kind.Link?
    requires IsPart(nm) && nm != "." && nm != ".."
    ensures var path := Canon(names + [nm]);
            var e, r := UnlinkPathErrno(t, cwd, path), Denotes(t, cwd, path, LOOKUP);
            && (e == 0 <==> r.Found? && !r.node.kind.Dir?)
            && (e == EISDIR <==> r.Found? && r.node.kind.Dir?)
            && (r.Failed? ==> e == r.errno)
  {
    LiveRoot(t);
    LeadsLive(t, t.root, names, d);
    PlainParent(t, cwd, names, d, nm);
    hide Tree.Valid, Follow, Leads, Canon, Denotes, Basename;
    UnlinkErrors(t, d, nm);
    if t.Entry(d, nm) == null {
      MissingName(t, cwd, names, d, nm, [], LOOKUP);
    } else {
      PresentName(t, cwd, names, d, nm, [], LOOKUP);
    }
    assert names + [nm] + [] == names + [nm];
  }

  /** The last part of a plain path is taken in the directory the others lead to. */
  lemma PlainParent(t: Tree, cwd: string, names: seq<string>, d: Node, nm: string)
    requires t.Valid() && Leads(t, t.root, names, d) && !d.kind.Link? && IsPart(nm)
    ensures d in t.nodes && Denotes(t, cwd, Canon(names + [nm]), PARENT) == Found(d)
    ensures Basename(Canon(names + [nm])) == nm
  {
    LiveRoot(t);
    LeadsLive(t, t.root, names, d);
    assert AllParts([nm]) && AllParts(names + [nm]);
    SegmentsCanon(names + [nm]);
    hide Tree.Valid, Leads, Canon, Denotes;
    Through(t, cwd, names, d, [nm], PARENT);
  }

  /** On plain paths an entry is busy exactly when the working directory leads to it. */
  lemma BusyIffCwd(t: Tree, w: seq<string>, names: seq<string>, d: Node, nm: string)
    requires t.Valid() && Leads(t, t.root, names, d) && !d.kind.Link? && d in t.nodes && AllParts(w)
    requires IsPart(nm) && nm != "." && nm != ".." && t.Entry(d, nm) != null
    ensures IsBusy(t, Canon(w), d, nm) <==> Leads(t, t.root, w, t.Entry(d, nm))
  {
    LiveRoot(t);
    LeadsLive(t, t.root, names, d);
    LeadsSnoc(t, t.root, names, d, nm);
    EntryPlace(t, d, nm);
    assert nm != "/" by {
      assert "/"[0] in "/";
    }
    hide Tree.Valid, Tree.Entry, Leads, Canon;
    if Leads(t, t.root, w, t.Entry(d, nm)) {
      LeadsUnique(t, w, names + [nm], t.Entry(d, nm));
    }
    forall other | Leads(t, t.root, other, d) && Canon(other + [nm]) == Canon(w)
      ensures w == names + [nm]
    {
      LeadsUnique(t, names, other, d);
      SegmentsCanon(w);
      assert AllParts(names + [nm]);
      SegmentsCanon(names + [nm]);
    }
  }

  /** `rmdir` of the working directory always fails, with EBUSY. */
  lemma RmdirOfCwd(t: Tree, names: seq<string>, d: Node, nm: string)
    requires t.Valid() && Leads(t, t.root, names, d) && !d.kind.Link? && d in t.nodes
    requires IsPart(nm) && nm != "." && nm != ".." && HasDir(t, d, nm)
    ensures RmdirPathErrno(t, Canon(names + [nm]), Canon(names + [nm])) == EBUSY
  {
    var w := names + [nm];
    LiveRoot(t);
    LeadsLive(t, t.root, names, d);
    LeadsSnoc(t, t.root, names, d, nm);
    EntryPlace(t, d, nm);
    assert AllParts(w) && IsAbs(Canon(w));
    PlainParent(t, Canon(w), names, d, nm);
    BusyIffCwd(t, w, names, d, nm);
    hide Tree.Valid, Leads, Canon, Denotes, Basename, IsBusy;
    RmdirErrors(t, d, nm, true);
  }
}
