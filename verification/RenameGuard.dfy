/**
 The path checks `rename` makes before moving anything, and what they do not catch.
 */
module RenameGuard {
  import opened DirTree
  import opened Paths
  import opened PathWalk
  import opened Rooted

  /** `PATH_FS.relative(above, path).charAt(0) !== "."` */
  function SaysInside(cwd: string, above: string, path: string): bool {
    var r := Relative(cwd, above, path);
    r == "" || r[0] != '.'
  }

  predicate Hidden(name: string) { name != "" && name[0] == '.' }

  /** The check says "inside" for a path at or below `above`, except where the next name starts with a dot. */
  lemma SaysInsideIff(cwd: string, above: string, path: string)
    requires IsAbs(cwd) && above != "" && path != ""
    ensures var f := ResolvedParts(cwd, above);
            var p := ResolvedParts(cwd, path);
            SaysInside(cwd, above, path) <==> f <= p && (|f| < |p| ==> !Hidden(p[|f|]))
  {
    var f := ResolvedParts(cwd, above);
    var p := ResolvedParts(cwd, path);
    ResolveOne(cwd, above);
    ResolveOne(cwd, path);
    var same := Common(f, p);
    var rel := RelativeParts(f, p);
    RelativeAreParts(f, p);
    JoinOfParts(rel);
    if same < |f| {
      assert rel[0] == "..";
      JoinHead(rel);
      if |f| <= |p| {
        assert f[same] != p[same] && p[..|f|][same] == p[same];
      }
    } else {
      assert f == f[..same] == p[..same];
      assert rel == p[same..];
      if rel != [] {
        JoinHead(rel);
        assert rel[0] == p[|f|];
      }
    }
  }

  lemma JoinHead(parts: seq<string>)
    requires AllParts(parts) && parts != []
    ensures Join(parts) != "" && Join(parts)[0] == parts[0][0]
  {
    assert IsPart(parts[0]);
  }

  /** On plain paths, lying below a node is having its path as a prefix. */
  lemma BelowIffPrefix(t: Tree, f: seq<string>, n: Node, p: seq<string>, d: Node)
    requires t.Valid() && n in t.nodes && d in t.nodes
    requires Leads(t, t.root, f, n) && Leads(t, t.root, p, d)
    ensures Below(t, d, n) <==> f <= p
  {
    if f <= p {
      UpAlong(t, p, d, |p| - |f|);
      assert p[..|f|] == f;
      LeadsTo(t, t.root, f, n, Up(t, d, |p| - |f|));
    }
    if k: nat :| Up(t, d, k) == n {
      UpAlong(t, p, d, k);
      LeadsUnique(t, f, p[..|p| - if k <= |p| then k else |p|], n);
    }
  }

  /** Climbing drops names from the end of the path, and stays at the root once there. */
  lemma {:induction false} UpAlong(t: Tree, p: seq<string>, d: Node, k: nat)
    requires t.Valid() && d in t.nodes && Leads(t, t.root, p, d)
    ensures Leads(t, t.root, p[..|p| - if k <= |p| then k else |p|], Up(t, d, k))
  {
    if k == 0 {
      assert p[..|p|] == p;
    } else if p == [] {
      UpAlong(t, p, d, k - 1);
      assert Up(t, d, k) == Up(t, t.root, k - 1);
    } else {
      LeadsParent(t, t.root, p, d);
      var q := p[..|p| - 1];
      assert t.HasParent(d);
      UpAlong(t, q, t.nodes[d].parent, k - 1);
      var drop := if k <= |p| then k else |p|;
      var dropQ := if k - 1 <= |q| then k - 1 else |q|;
      assert q[..|q| - dropQ] == p[..|p| - drop];
    }
  }

  lemma {:induction false} LeadsTo(t: Tree, d: Node, p: seq<string>, a: Node, b: Node)
    requires t.Valid() && Leads(t, d, p, a) && Leads(t, d, p, b)
    ensures a == b
    decreases p
  {
    if p != [] {
      LeadsTo(t, t.Entry(d, p[0]), p[1..], a, b);
    }
  }

  /**
   On plain paths the check leaves exactly one way to detach a directory from the tree: moving
   it below itself past a name that starts with a dot. Everywhere else it keeps all nodes connected.
   */
  lemma GuardedMoveDetachesIff(t: Tree, cwd: string, f: seq<string>, n: Node, p: seq<string>, d: Node, nm: string)
    requires Movable(t, n, d, nm) && AllConnected(t) && IsAbs(cwd)
    requires n in t.nodes && d in t.nodes && Leads(t, t.root, f, n) && Leads(t, t.root, p, d)
    requires !SaysInside(cwd, Canon(f), Canon(p))
    ensures t.HasParent(n) && t.Move(n, d, nm).Shaped()
    ensures AllConnected(t.Move(n, d, nm)) <==> !(f < p && Hidden(p[|f|]))
  {
    MoveKeepsConnectedIff(t, n, d, nm);
    BelowIffPrefix(t, f, n, p, d);
    LeadsLive(t, t.root, f, n);
    LeadsLive(t, t.root, p, d);
    CanonResolved(cwd, f);
    CanonResolved(cwd, p);
    SaysInsideIff(cwd, Canon(f), Canon(p));
  }

  lemma CanonResolved(cwd: string, p: seq<string>)
    requires AllParts(p) && Names(p)
    ensures ResolvedParts(cwd, Canon(p)) == p
  {
    SegmentsCanon(p);
    WalkNames([], p, false);
    assert [] + p == p;
  }
}
