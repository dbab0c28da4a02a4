/** What creating, removing and renaming do to the paths of the tree: what is found where afterwards. */
module PathEffects {
  import opened DirTree
  import opened Errno
  import opened Paths
  import opened PathWalk
  import opened PlainPaths

  const LOOKUP := Options(false, false, false)

  /** Every step of this path from `x` denotes the same node in both trees. */
  ghost predicate Untouched(t: Tree, t': Tree, x: Node, names: seq<string>)
    requires t.Valid() && x in t.nodes
    decreases names
  {
    names == [] ||
    (LiveParts(t, x, names[0]);
     && x in t'.nodes && t'.Entry(x, names[0]) == t.Entry(x, names[0]) && t.Entry(x, names[0]) != null
     && t.Entry(x, names[0]) in t'.live
     && Untouched(t, t', t.Entry(x, names[0]), names[1..]))
  }

  lemma {:induction false} UntouchedLeads(t: Tree, t': Tree, x: Node, names: seq<string>, node: Node)
    requires t.Valid() && t'.Valid() && x in t.live && x in t'.live && x in t.nodes
    requires Leads(t, x, names, node) && Untouched(t, t', x, names)
    ensures Leads(t', x, names, node)
    decreases names
  {
    if names != [] {
      LiveParts(t, x, names[0]);
      hide Tree.Valid, Tree.Entry;
      UntouchedLeads(t, t', t.Entry(x, names[0]), names[1..], node);
    }
  }

  /** A path that does not go through the entry `nm` of `d` is untouched by a change of that entry. */
  lemma {:induction false} PathAvoids(t: Tree, t': Tree, a: seq<string>, x: Node, names: seq<string>, node: Node,
                                      changed: seq<(seq<string>, Node, string)>)
    requires t.Valid() && t'.Valid() && x in t.live && x in t.nodes
    requires Leads(t, t.root, a, x) && Leads(t, x, names, node)
    requires t.nodes.Keys <= t'.nodes.Keys
    requires forall i :: 0 <= i < |changed| ==> changed[i].1 in t.nodes && Leads(t, t.root, changed[i].0, changed[i].1)
    requires forall i :: 0 <= i < |changed| ==> !(changed[i].0 + [changed[i].2] <= a + names)
    requires forall y, k {:trigger t'.Entry(y, k)} ::
               y in t.nodes && (forall i :: 0 <= i < |changed| ==> !(y == changed[i].1 && k == changed[i].2)) ==>
                 t'.Entry(y, k) == t.Entry(y, k)
    ensures Untouched(t, t', x, names)
    decreases names
  {
    if names != [] {
      LiveParts(t, x, names[0]);
      assert a + names == (a + [names[0]]) + names[1..];
      forall i | 0 <= i < |changed|
        ensures !(x == changed[i].1 && names[0] == changed[i].2)
      {
        if x == changed[i].1 {
          LeadsUnique(t, a, changed[i].0, x);
        }
      }
      assert !x.kind.Link? && names[0] != "." && names[0] != ".." && IsPart(names[0]) && t.Entry(x, names[0]) != null;
      LeadsSnoc(t, t.root, a, x, names[0]);
      LiveParts(t', x, names[0]);
      hide Tree.Valid, Tree.Entry;
      PathAvoids(t, t', a + [names[0]], t.Entry(x, names[0]), names[1..], node, changed);
    }
  }

  lemma RootLeads(t: Tree)
    requires t.Valid()
    ensures Leads(t, t.root, [], t.root) && t.root in t.live && t.root in t.nodes
  {
  }

  /** What is created is found under its path. */
  lemma CreatedIsFound(t: Tree, names: seq<string>, d: Node, nm: string, n: Node, target: string, cwd: string)
    requires t.Valid() && Leads(t, t.root, names, d) && d in t.live && d.kind.Dir? && t.Entry(d, nm) == null
    requires n !in t.nodes && IsPart(nm) && nm != "." && nm != ".."
    ensures t.Add(d, nm, n, target).Valid()
    ensures Denotes(t.Add(d, nm, n, target), cwd, Canon(names + [nm]), LOOKUP) == Found(n)
  {
    AddKeepsTree(t, d, nm, n, target);
    var t' := t.Add(d, nm, n, target);
    RootLeads(t);
    assert t'.root == t.root && t.live <= t'.live && t.nodes.Keys <= t'.nodes.Keys && d in t.nodes;
    forall y, k | y in t.nodes && !(y == d && k == nm)
      ensures t'.Entry(y, k) == t.Entry(y, k)
    {
      AddedEntry(t, d, nm, n, target, y, k);
    }
    AddedEntry(t, d, nm, n, target, d, nm);
    AddedAvoids(t, t', t.root, names, d, d, nm);
    hide Tree.Add, Tree.Valid, Tree.Entry;
    UntouchedLeads(t, t', t.root, names, d);
    PresentName(t', cwd, names, d, nm, [], LOOKUP);
    assert names + [nm] + [] == names + [nm];
  }

  /** No path leads through a name that denoted nothing. */
  lemma {:induction false} AddedAvoids(t: Tree, t': Tree, x: Node, names: seq<string>, node: Node, d: Node, nm: string)
    requires t.Valid() && x in t.nodes && Leads(t, x, names, node) && d in t.nodes && t.Entry(d, nm) == null
    requires t.live <= t'.live && t.nodes.Keys <= t'.nodes.Keys
    requires forall y, k {:trigger t'.Entry(y, k)} ::
               y in t.nodes && !(y == d && k == nm) ==> t'.Entry(y, k) == t.Entry(y, k)
    ensures Untouched(t, t', x, names)
    decreases names
  {
    if names != [] {
      LiveParts(t, x, names[0]);
      hide Tree.Valid, Tree.Entry;
      AddedAvoids(t, t', t.Entry(x, names[0]), names[1..], node, d, nm);
    }
  }

  /** What is removed is found no more. */
  lemma RemovedIsGone(t: Tree, names: seq<string>, d: Node, nm: string, cwd: string)
    requires t.Valid() && Leads(t, t.root, names, d) && d in t.live && d in t.nodes && d.kind.Dir?
    requires nm in t.nodes[d].contents && IsPart(nm) && nm != "." && nm != ".."
    ensures t.Remove(d, nm).Valid()
    ensures Denotes(t.Remove(d, nm), cwd, Canon(names + [nm]), LOOKUP) == Failed(ENOENT)
  {
    RemoveKeepsTree(t, d, nm);
    var t' := t.Remove(d, nm);
    RootLeads(t);
    assert t.Lists(d) && t.ListsAs(d, nm);
    RemovedEntry(t, d, nm, d, nm);
    var changed := [(names, d, nm)];
    forall y, k | y in t.nodes && (forall i :: 0 <= i < |changed| ==> !(y == changed[i].1 && k == changed[i].2))
      ensures t'.Entry(y, k) == t.Entry(y, k)
    {
      assert !(y == changed[0].1 && k == changed[0].2);
      RemovedEntry(t, d, nm, y, k);
    }
    assert [] + names == names;
    PathAvoids(t, t', [], t.root, names, d, changed);
    hide Tree.Remove, Tree.Valid, Tree.Entry;
    UntouchedLeads(t, t', t.root, names, d);
    MissingName(t', cwd, names, d, nm, [], LOOKUP);
    assert names + [nm] + [] == names + [nm];
  }

  /**
   What is moved is found under its new path and no longer under its old one - where the target directory
   is not inside what moves, nor the old directory inside what is replaced.
   */
  lemma MovedIsFound(t: Tree, f: seq<string>, n: Node, g: seq<string>, d: Node, nm: string, cwd: string)
    requires Movable(t, n, d, nm) && n in t.nodes && t.HasParent(n) && IsPart(nm) && nm != "." && nm != ".."
    requires var p, name := t.nodes[n].parent, t.nodes[n].name;
             && Leads(t, t.root, f, p) && !p.kind.Link? && Leads(t, t.root, g, d) && t.Entry(p, name) == n
             && IsPart(name) && name != "." && name != ".."
             && !(f + [name] <= g) && !(g + [nm] <= f)
    ensures t.Move(n, d, nm).Valid()
    ensures Denotes(t.Move(n, d, nm), cwd, Canon(g + [nm]), LOOKUP) == Found(n)
    ensures Denotes(t.Move(n, d, nm), cwd, Canon(f + [t.nodes[n].name]), LOOKUP) == Failed(ENOENT)
  {
    MoveKeepsTree(t, n, d, nm);
    var t' := t.Move(n, d, nm);
    var p, name := t.nodes[n].parent, t.nodes[n].name;
    MovedPaths(t, f, n, g, d, nm);
    MovedEntry(t, n, d, nm, d, nm);
    MovedEntry(t, n, d, nm, p, name);
    assert d in t'.nodes && p in t'.nodes && t'.root == t.root;
    HasEntryIsDir(t, p, name);
    hide Tree.Move, Tree.Valid, Tree.Entry, Movable;
    RootLeads(t');
    PresentName(t', cwd, g, d, nm, [], LOOKUP);
    MissingName(t', cwd, f, p, name, [], LOOKUP);
    assert g + [nm] + [] == g + [nm] && f + [name] + [] == f + [name];
  }

  lemma HasEntryIsDir(t: Tree, d: Node, nm: string)
    requires d in t.nodes && t.Entry(d, nm) != null
    ensures d.kind.Dir?
  {
  }

  /** Both directories are still where they were. */
  lemma MovedPaths(t: Tree, f: seq<string>, n: Node, g: seq<string>, d: Node, nm: string)
    requires Movable(t, n, d, nm) && n in t.nodes && t.HasParent(n)
    requires var p, name := t.nodes[n].parent, t.nodes[n].name;
             && Leads(t, t.root, f, p) && Leads(t, t.root, g, d)
             && !(f + [name] <= g) && !(g + [nm] <= f)
    ensures t.Move(n, d, nm).Valid() && t.Move(n, d, nm).root == t.root
    ensures Leads(t.Move(n, d, nm), t.root, f, t.nodes[n].parent) && Leads(t.Move(n, d, nm), t.root, g, d)
  {
    MoveKeepsTree(t, n, d, nm);
    var t' := t.Move(n, d, nm);
    var p, name := t.nodes[n].parent, t.nodes[n].name;
    RootLeads(t);
    MovedKeys(t, n, d, nm);
    RootLeads(t');
    var changed := [(f, p, name), (g, d, nm)];
    forall y, k | y in t.nodes && (forall i :: 0 <= i < |changed| ==> !(y == changed[i].1 && k == changed[i].2))
      ensures t'.Entry(y, k) == t.Entry(y, k)
    {
      assert !(y == changed[0].1 && k == changed[0].2) && !(y == changed[1].1 && k == changed[1].2);
      MovedEntry(t, n, d, nm, y, k);
    }
    hide Tree.Move, Tree.Valid, Tree.Entry, Movable;
    assert [] + f == f && [] + g == g && |f + [name]| > |f| && |g + [nm]| > |g|;
    PathAvoids(t, t', [], t.root, f, p, changed);
    PathAvoids(t, t', [], t.root, g, d, changed);
    UntouchedLeads(t, t', t.root, f, p);
    UntouchedLeads(t, t', t.root, g, d);
  }
}
