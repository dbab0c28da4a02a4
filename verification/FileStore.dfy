/**
 The file system object: a chained hash index from (parent id, name) to node, linked through
 `nameNext` and updated in place, and the operations that keep it equal to the directories' maps.
 */
module FileStore {
  import opened DirTree
  import opened Errno
  import opened HashChains
  import opened Paths
  import opened PathWalk
  import opened RenameGuard

  const SIZE: nat := 4096

  // ----- What each operation answers, as a function of the tree before it -----

  ghost function LookupErrno(t: Tree, d: Node, nm: string): nat
    requires d in t.nodes
  {
    if t.Entry(d, nm) != null then 0 else if d.kind.Dir? then ENOENT else ENOTDIR
  }

  ghost function CreateErrno(t: Tree, d: Node, nm: string): nat
    requires d in t.nodes
  {
    if !d.kind.Dir? then ENOTDIR else if t.Entry(d, nm) != null then EEXIST else 0
  }

  /** `busy`: the entry is the current working directory. */
  ghost function DeleteErrno(t: Tree, d: Node, nm: string, isDir: bool, busy: bool): nat
    requires d in t.nodes
  {
    var n := t.Entry(d, nm);
    if n == null then LookupErrno(t, d, nm)
    else if isDir then
      if !n.kind.Dir? then ENOTDIR else if (n in t.nodes && t.nodes[n].parent == n) || busy then EBUSY else 0
    else if n.kind.Dir? then EISDIR
    else 0
  }

  /** A failed check is always a file system error. */
  lemma ChecksNeverThrow(t: Tree)
    ensures forall d, nm :: d in t.nodes && t.Entry(d, nm) == null ==> LookupErrno(t, d, nm) != 0
    ensures forall d, nm :: d in t.nodes ==> LookupErrno(t, d, nm) != TYPE_ERROR && CreateErrno(t, d, nm) != TYPE_ERROR
    ensures forall d, nm, isDir, busy :: d in t.nodes ==> DeleteErrno(t, d, nm, isDir, busy) != TYPE_ERROR
  {
  }

  ghost predicate Dotted(nm: string) { nm == "." || nm == ".." }

  /** What making a node ends in: a name that nothing forbids may still meet an inherited getter. */
  ghost function MakeErrno(t: Tree, d: Node, nm: string): nat
    requires d in t.nodes
  {
    var e := CreateErrno(t, d, nm);
    if e == 0 && t.nodes[d].listing.Throws(nm) then TYPE_ERROR else e
  }

  ghost function MknodErrno(t: Tree, d: Node, nm: string): nat
    requires d in t.nodes
  {
    if nm == "" then EINVAL else if Dotted(nm) then EEXIST else MakeErrno(t, d, nm)
  }

  ghost function RmdirErrno(t: Tree, d: Node, nm: string, busy: bool): nat
    requires d in t.nodes
  {
    var e := DeleteErrno(t, d, nm, true, busy);
    var n := t.Entry(d, nm);
    if e != 0 then e else if n in t.nodes && t.nodes[n].listing.Enumerates() then ENOTEMPTY else 0
  }

  /**
   The two path checks of `rename` (the source lies above the target's directory; the target lies
   above the source's) and whether either node is the working directory.
   */
  datatype Guards = Guards(sourceAbove: bool, targetAbove: bool, sourceBusy: bool, targetBusy: bool)

  ghost function RenameErrno(t: Tree, d1: Node, nm1: string, d2: Node, nm2: string, g: Guards): nat
    requires d1 in t.nodes && d2 in t.nodes
  {
    var src := t.Entry(d1, nm1);
    var dst := t.Entry(d2, nm2);
    if src == null then LookupErrno(t, d1, nm1)
    else if g.sourceAbove then EINVAL
    else if g.targetAbove then ENOTEMPTY
    else if src == dst then 0
    else
      var e1 := DeleteErrno(t, d1, nm1, src.kind.Dir?, g.sourceBusy);
      var e2 := if dst != null then DeleteErrno(t, d2, nm2, src.kind.Dir?, g.targetBusy) else CreateErrno(t, d2, nm2);
      if e1 != 0 then e1
      else if e2 != 0 then e2
      else MoveErrno(t, src, d2, nm2)
  }

  /** What MEMFS's own rename ends in. */
  ghost function MoveErrno(t: Tree, node: Node, dir: Node, name: string): nat
    requires dir in t.nodes
  {
    var e := t.Entry(dir, name);
    if e in t.nodes && node.kind.Dir? && t.nodes[e].listing.Enumerates() then ENOTEMPTY
    else if t.nodes[dir].listing.Throws(name) then TYPE_ERROR
    else 0
  }

  ghost predicate UniqueIds(ns: set<Node>) {
    forall m, n {:trigger m.id, n.id} :: m in ns && n in ns && m.id == n.id ==> m == n
  }

  /** What the walker makes of one name. */
  datatype Taken = Onward(node: Node, path: string) | Restart(text: string) | Ended(path: string, errno: nat)

  /** The records after a move. */
  ghost function MovedTo(nodes: map<Node, Info>, n: Node, d: Node, nm: string): map<Node, Info>
    requires n in nodes && d in nodes && nodes[n].parent in nodes
  {
    var left := nodes[nodes[n].parent := nodes[nodes[n].parent].Without(nodes[n].name)];
    var entered := left[d := left[d].With(nm, n)];
    entered[n := entered[n].(parent := d, name := nm)]
  }

  lemma MovedNodes(t: Tree, n: Node, d: Node, nm: string)
    requires n in t.nodes && t.HasParent(n) && d in t.nodes
    ensures t.Move(n, d, nm).nodes == MovedTo(t.nodes, n, d, nm) && t.Move(n, d, nm).root == t.root
    ensures t.Move(n, d, nm).live == t.live - (if nm in t.nodes[d].contents then {t.nodes[d].contents[nm]} else {})
  {
  }

  /** A node that gets its target after it was made. */
  lemma Targeted(t: Tree, d: Node, nm: string, n: Node, target: string)
    requires t.Valid() && d in t.live && d in t.nodes && n !in t.nodes && CreateErrno(t, d, nm) == 0
    ensures var t' := t.Add(d, nm, n, "");
            && n in t'.nodes && t'.(nodes := t'.nodes[n := t'.nodes[n].(link := target)]) == t.Add(d, nm, n, target)
            && t.Add(d, nm, n, target).Valid()
            && (t.Agrees() ==> (t.Add(d, nm, n, target).Agrees() <==> !t.nodes[d].listing.Trapped(nm)))
  {
    FreeName(t, d, nm);
    AddKeepsTree(t, d, nm, n, target);
    if t.Agrees() {
      AddAgreesIff(t, d, nm, n, target);
    }
  }

  /** The records after a move that threw. */
  ghost function AbortedAt(nodes: map<Node, Info>, n: Node, d: Node, nm: string): map<Node, Info>
    requires n in nodes && d in nodes && nodes[n].parent in nodes
  {
    var ns := nodes[d := nodes[d].Without(nm)];
    ns[nodes[n].parent := ns[nodes[n].parent].Unlisted(nodes[n].name)]
  }

  /** The entry that `n` itself says it is. */
  ghost predicate Placed(nodes: map<Node, Info>, n: Node) {
    && n in nodes && nodes[n].parent in nodes
    && nodes[n].name in nodes[nodes[n].parent].contents && nodes[nodes[n].parent].contents[nodes[n].name] == n
  }

  /** The same records, in the order in which they change. */
  lemma AbortSteps(nodes: map<Node, Info>, n: Node, d: Node, nm: string)
    requires Placed(nodes, n) && d in nodes && !(nodes[n].parent == d && nodes[n].name == nm)
    ensures var p, name := nodes[n].parent, nodes[n].name;
            var left := nodes[p := nodes[p].Without(name)];
            var back := left[p := left[p].(contents := left[p].contents[name := n])];
            && (left[d].listing.Throws(nm) <==> nodes[d].listing.Throws(nm))
            && (nodes[d].listing.Throws(nm) ==>
                  back[d := back[d].(contents := back[d].contents - {nm})] == AbortedAt(nodes, n, d, nm))
  {
    var p, name := nodes[n].parent, nodes[n].name;
    var c := nodes[p].contents;
    assert (c - {name})[name := n] == c;
    if nodes[d].listing.Throws(nm) {
      var own := nodes[d].listing.own;
      assert own - {nm} == own;
      assert nodes[d].Without(nm) == nodes[d].(contents := nodes[d].contents - {nm});
    }
  }

  /** Creating a node, in the order of its steps. */
  lemma AddedNodes(t: Tree, d: Node, nm: string, n: Node)
    requires d in t.nodes && n !in t.nodes
    ensures Tree(t.root, t.nodes[n := Info(d, nm, map[], EMPTY, "")][d := t.nodes[d].With(nm, n)], t.live + {n})
         == t.Add(d, nm, n, "")
  {
    hide PlainObject.Set;
  }

  lemma ThrowsSetsNothing(i: Info, nm: string, n: Node)
    ensures i.listing.Throws(nm) ==> i.With(nm, n) == i.(contents := i.contents[nm := n])
  {
  }

  lemma AbortedNodes(t: Tree, n: Node, d: Node, nm: string)
    requires n in t.nodes && t.HasParent(n) && d in t.nodes && t.nodes[d].listing.Throws(nm)
    ensures t.Aborted(n, d, nm).nodes == AbortedAt(t.nodes, n, d, nm) && t.Aborted(n, d, nm).root == t.root
    ensures t.Aborted(n, d, nm).live == t.live - (if nm in t.nodes[d].contents then {t.nodes[d].contents[nm]} else {})
  {
    var i := t.nodes[d];
    assert i.listing.own - {nm} == i.listing.own;
    if nm !in i.contents {
      assert i.contents - {nm} == i.contents;
      assert i.Without(nm) == i;
      assert t.nodes[d := i] == t.nodes;
    }
  }

  lemma FreeName(t: Tree, d: Node, nm: string)
    requires d in t.nodes && CreateErrno(t, d, nm) == 0
    ensures d.kind.Dir? && t.Entry(d, nm) == null
  {
  }

  class FileStore {
    const nameTable: array<Node?>
    const root: Node
    var nextInode: nat
    ghost var nodes: map<Node, Info>  // every node ever made here, and its fields
    ghost var live: set<Node>         // the nodes in the index
    ghost var index: Index            // the table, the links, and the chains they spell

    constructor ()
      ensures Valid() && nameTable.Length == SIZE && fresh(nameTable) && fresh(nodes.Keys)
      ensures TreeNow() == Tree(root, map[root := Info(root, "/", map[], EMPTY, "")], {root})
    {
      nameTable := new Node?[SIZE](_ => null);
      var r := new Node.Root(1);
      root := r;
      nextInode := 2;
      nodes, live := map[r := Info(r, "/", map[], EMPTY, "")], {};
      index := Index(seq(SIZE, _ => null), map[r := null], seq(SIZE, _ => []));
      new;
      assert FieldsMatch(root) && LinkMatches(root) && nameTable[..] == index.heads;
      assert index.Valid(TreeNow()) by {
        assert forall h :: 0 <= h < SIZE ==> index.ChainOk(TreeNow(), h);
      }
      HashAddNode(root);
      assert TreeNow().HasParent(root) && TreeNow().Hangs(root) && TreeNow().Lists(root);
    }

    // ----- The object and its ghost values -----

    ghost function TreeNow(): Tree
      reads this`nodes, this`live
    {
      Tree(root, nodes, live)
    }

    ghost predicate FieldsMatch(n: Node)
      requires n in nodes
      reads this`nodes, n`parent, n`name, n`contents, n`link
    {
      var i := nodes[n];
      i.parent == n.parent && i.name == n.name && i.listing == n.contents && i.link == n.link && i.parent in nodes
    }

    /** The ghost records are what the nodes' fields say. */
    ghost predicate NodesOk()
      reads this`nodes, this`nextInode, nodes.Keys`parent, nodes.Keys`name, nodes.Keys`contents, nodes.Keys`link
    {
      && UniqueIds(nodes.Keys)
      && forall n {:trigger FieldsMatch(n)} :: n in nodes ==> FieldsMatch(n) && n.id < nextInode
    }

    lemma MatchedFields(n: Node)
      requires NodesOk() && n in nodes
      ensures FieldsMatch(n)
    {
    }

    lemma MatchedLinks(n: Node)
      requires NodesOk() && n in nodes
      ensures nodes[n].parent == n.parent && nodes[n].link == n.link
    {
      assert FieldsMatch(n);
    }

    lemma AllMatch()
      requires UniqueIds(nodes.Keys) && forall n :: n in nodes ==> FieldsMatch(n) && n.id < nextInode
      ensures NodesOk()
    {
      hide UniqueIds, FieldsMatch;
    }

    ghost predicate LinkMatches(n: Node)
      reads this`index, n`nameNext
    {
      n in index.next && index.next[n] == n.nameNext
    }

    ghost predicate LinksOk()
      reads this`nodes, this`index, nameTable, nodes.Keys`nameNext
    {
      && nameTable[..] == index.heads
      && forall n {:trigger LinkMatches(n)} :: n in nodes ==> LinkMatches(n)
    }

    ghost predicate IndexOk()
      reads this`nodes, this`live, this`index, this`nextInode, nameTable, nodes.Keys
    {
      NodesOk() && LinksOk() && index.Valid(TreeNow())
    }

    /** The invariant: the index is in order, and so is the tree it spells. */
    ghost predicate Valid()
      reads this`nodes, this`live, this`index, this`nextInode, nameTable, nodes.Keys
    {
      IndexOk() && TreeNow().Valid()
    }

    // ----- The index -----

    method Hash(parentId: nat, name: string) returns (h: nat)
      requires nameTable.Length > 0
      ensures h == HashName(parentId, name, nameTable.Length) && h < nameTable.Length
    {
      var hash := 0;
      for i := 0 to |name|
        invariant hash == HashFold(name[..i])
      {
        assert name[..i + 1][..i] == name[..i];
        hash := ToInt32(ToInt32(hash * 32) - hash + name[i] as int);
      }
      assert name[..|name|] == name;
      h := (parentId + hash) % TWO32 % nameTable.Length;
    }

    method HashAddNode(node: Node)
      requires IndexOk() && node in nodes && node !in live
      modifies this`live, this`index, nameTable, node`nameNext
      ensures IndexOk()
      ensures live == old(live) + {node}
    {
      hide HashName, UniqueIds, Index.ChainOk, Index.Filed, Index.Spells;
      assert FieldsMatch(node);
      PushKeepsIndex(index, TreeNow(), node);
      ghost var slot := index.Slot(TreeNow(), node);
      var hash := Hash(node.parent.id, node.name);
      node.nameNext := nameTable[hash];
      nameTable[hash] := node;
      index := PushFront(index, hash, node);
      live := live + {node};
      assert NodesOk();
      assert LinksOk() by {
        forall n | n in nodes
          ensures LinkMatches(n)
        {
          assert old(LinkMatches(n));
        }
        AllLinked();
      }
    }

    method HashRemoveNode(node: Node)
      requires IndexOk() && node in live
      modifies this`live, this`index, nameTable, nodes.Keys`nameNext
      ensures IndexOk()
      ensures live == old(live) - {node}
    {
      hide HashName, UniqueIds, Index.ChainOk, Index.Filed, Index.Spells, Spliced;
      SkipNode(node);
      SpliceKeepsIndex(old(index), index, TreeNow(), node);
      live := live - {node};
    }

    /** Where the index holds `node`, and what the index is without it. */
    lemma PlaceOf(node: Node) returns (hash: nat, k: nat)
      requires IndexOk() && node in live
      ensures node in nodes && index.next.Keys == nodes.Keys && hash < |index.heads| == |index.chains|
      ensures hash == HashName(node.parent.id, node.name, nameTable.Length)
      ensures k < |index.chains[hash]| && index.chains[hash][k] == node && index.Spells(hash, index.chains[hash])
      ensures node in index.next && Spliced(index, Redirect(index, hash, k), TreeNow(), node)
    {
      hide HashName, UniqueIds;
      assert index.Filed(TreeNow(), node) && FieldsMatch(node) && LinkMatches(node);
      hash := index.Slot(TreeNow(), node);
      assert index.ChainOk(TreeNow(), hash);
      k :| 0 <= k < |index.chains[hash]| && index.chains[hash][k] == node;
      RedirectSplices(index, TreeNow(), node, hash, k);
    }

    lemma AllLinked()
      requires nameTable[..] == index.heads && forall n :: n in nodes ==> LinkMatches(n)
      ensures LinksOk()
    {
      hide LinkMatches;
    }

    /** Redirects the one link or head that leads to `node`. */
    method SkipNode(node: Node)
      requires IndexOk() && node in live
      modifies this`index, nameTable, nodes.Keys`nameNext
      ensures LinksOk() && node in nodes && old(index).heads != [] && Spliced(old(index), index, TreeNow(), node)
    {
      ghost var h, k := PlaceOf(node);
      hide HashName, NodesOk, FieldsMatch, LinkMatches, Index.Valid, Index.Spells, Index.Slot, Spliced, Redirect,
           Tree.Shaped;
      var hash := Hash(node.parent.id, node.name);
      HeadOf(hash, k);
      if nameTable[hash] == node {
        SkipHead(node, hash);
      } else {
        UnlinkInChain(node, hash, k, index.chains[hash][k - 1]);
      }
    }

    lemma HeadOf(hash: nat, k: nat)
      requires LinksOk() && hash < |index.heads| == |index.chains| && k < |index.chains[hash]|
      requires index.Spells(hash, index.chains[hash])
      ensures hash < nameTable.Length && (nameTable[hash] == index.chains[hash][k] <==> k == 0)
    {
      SpelledAt(index, hash, index.chains[hash], k);
    }

    /** The chain's head becomes what `node` links to. */
    method SkipHead(node: Node, hash: nat)
      requires LinksOk() && node in nodes && hash < |index.heads| == |index.chains| && index.chains[hash] != []
      requires index.Spells(hash, index.chains[hash]) && index.chains[hash][0] == node && node in index.next
      modifies this`index, nameTable
      ensures LinksOk() && index == Redirect(old(index), hash, 0)
    {
      RedirectFields(index, hash, 0);
      assert LinkMatches(node);
      hide Index.Spells, Redirect;
      nameTable[hash] := node.nameNext;
      index := Redirect(index, hash, 0);
      forall n | n in nodes
        ensures LinkMatches(n)
      {
        assert old(LinkMatches(n));
      }
      AllLinked();
    }

    /** Walks the chain from its head to the node before `node`, and links that one past it. */
    method UnlinkInChain(node: Node, hash: nat, ghost k: nat, ghost before: Node)
      requires LinksOk() && index.next.Keys == nodes.Keys && hash < |index.heads| == |index.chains|
      requires var chain := index.chains[hash];
               index.Spells(hash, chain) && 0 < k < |chain| && chain[k] == node && before == chain[k - 1]
      modifies this`index, before`nameNext
      ensures LinksOk() && node in old(index).next && index == Redirect(old(index), hash, k)
    {
      ghost var chain := index.chains[hash];
      SpelledAt(index, hash, chain, k);
      SpelledAt(index, hash, chain, 0);
      var current := nameTable[hash];
      ghost var i := 0;
      while current != null
        invariant 0 <= i < k && current == chain[i]
        invariant unchanged(this, before)
        decreases k - i
      {
        SpelledAt(index, hash, chain, i);
        assert LinkMatches(current);
        if current.nameNext == node {
          assert i == k - 1;
          RedirectFields(index, hash, k);
          assert LinkMatches(node);
          hide Index.Spells, Redirect;
          current.nameNext := node.nameNext;
          index := Redirect(index, hash, k);
          forall n | n in nodes
            ensures LinkMatches(n)
          {
            assert old(LinkMatches(n));
          }
          AllLinked();
          return;
        }
        current := current.nameNext;
        i := i + 1;
      }
    }

    /** The chain walk of `lookupNode`: the indexed node with this parent and name, if there is one. */
    method FindIndexed(parent: Node, name: string) returns (node: Node?)
      requires IndexOk() && parent in nodes
      ensures node != null ==> node in live && node in nodes && nodes[node].parent == parent && nodes[node].name == name
      ensures node == null ==>
                forall n :: n in live && n in nodes ==> !(nodes[n].parent == parent && nodes[n].name == name)
    {
      hide HashName;
      var hash := Hash(parent.id, name);
      ghost var chain := index.chains[hash];
      ghost var i := 0;
      node := nameTable[hash];
      assert index.ChainOk(TreeNow(), hash);
      while node != null
        invariant 0 <= i <= |chain| && node == At(chain, i)
        invariant forall j :: 0 <= j < i ==> !(nodes[chain[j]].parent == parent && nodes[chain[j]].name == name)
        decreases |chain| - i
      {
        assert FieldsMatch(node) && LinkMatches(node);
        if node.parent.id == parent.id && node.name == name {
          return;
        }
        node := node.nameNext;
        i := i + 1;
      }
      forall n | n in live && n in nodes
        ensures !(nodes[n].parent == parent && nodes[n].name == name)
      {
        assert index.Filed(TreeNow(), n);
      }
    }

    // ----- Looking up -----

    method LookupNode(parent: Node, name: string) returns (node: Node?, errno: nat)
      requires Valid() && parent in live && parent in nodes
      ensures node == TreeNow().Entry(parent, name) && (node != null ==> node in live && node in nodes)
      ensures errno == LookupErrno(TreeNow(), parent, name)
    {
      hide HashName, Index.Valid;
      if !parent.kind.Dir? {
        return null, ENOTDIR;
      }
      node := FindIndexed(parent, name);
      EntryIsIndexed(TreeNow(), parent, name);
      errno := if node != null then 0 else ENOENT;
    }

    method MayCreate(dir: Node, name: string) returns (errno: nat)
      requires Valid() && dir in live && dir in nodes
      ensures errno == CreateErrno(TreeNow(), dir, name)
    {
      if !dir.kind.Dir? {
        return ENOTDIR;
      }
      var node, e := LookupNode(dir, name);
      errno := if node != null then EEXIST else 0;
    }

    method MayDelete(dir: Node, name: string, isDir: bool, busy: bool) returns (errno: nat)
      requires Valid() && dir in live && dir in nodes
      ensures errno == DeleteErrno(TreeNow(), dir, name, isDir, busy)
    {
      var node, e := LookupNode(dir, name);
      if node == null {
        return e;
      }
      assert FieldsMatch(node);
      if isDir {
        if !node.kind.Dir? {
          return ENOTDIR;
        }
        if node.parent == node || busy {
          return EBUSY;
        }
      } else if node.kind.Dir? {
        return EISDIR;
      }
      return 0;
    }

    /** The path walker: restarts from the root at every symlink, and when ".." is taken at the root. */
    method LookupPath(cwd: string, path: string, o: Options) returns (outPath: string, node: Node?, errno: nat)
      requires Valid() && IsAbs(cwd)
      ensures Answers(TreeNow(), Denotes(TreeNow(), cwd, path, o), o, outPath, node, errno)
    {
      if path == "" {
        return "", null, ENOENT;
      }
      ghost var d := Denotes(TreeNow(), cwd, path, o);
      hide *;
      var p := if path[0] == '/' then path else cwd + "/" + path;
      var nlinks := 0;
      while nlinks < MAXLINKS
        invariant nlinks <= MAXLINKS
        invariant d == if nlinks < MAXLINKS then Follow(TreeNow(), root, Segments(p), nlinks, o) else Failed(ELOOP)
        decreases MAXLINKS - nlinks, |Segments(p)|
      {
        var again;
        again, p, nlinks, outPath, node, errno := WalkParts(Segments(p), nlinks, o, d);
        if !again {
          return;
        }
      }
      return "", null, ELOOP;
    }

    /** The walker's loop over the parts of one path text; `again`: the text was replaced by `p`. */
    method WalkParts(parts: seq<string>, links: nat, o: Options, ghost d: Outcome)
      returns (again: bool, p: string, nlinks: nat, outPath: string, node: Node?, errno: nat)
      requires Valid() && AllParts(parts) && links < MAXLINKS
      requires d == Follow(TreeNow(), root, parts, links, o)
      ensures again ==>
                && d == (if nlinks < MAXLINKS then Follow(TreeNow(), root, Segments(p), nlinks, o) else Failed(ELOOP))
                && (nlinks == links + 1 || (nlinks == links && |Segments(p)| < |parts|))
      ensures !again ==> Answers(TreeNow(), d, o, outPath, node, errno)
    {
      ghost var t := TreeNow();
      assert t.Valid() && NodesOk();
      hide HashName, Valid, NodesOk, LinksOk, IndexOk, Tree.Valid, Tree.Shaped, Tree.Entry, Canon;
      hide Segments, Join, Dirname, Normalize, Leads, Follow, Walking, Retargeted, Answers, FieldsMatch;
      again, p, nlinks, outPath, node, errno := false, "", links, "", null, 0;
      var current: Node := root;
      var currentPath := "/";
      ghost var names: seq<string> := [];
      var i := 0;
      assert parts[0..] == parts;
      WalkStart(t, d, parts, links, o);
      while i < |parts|
        invariant 0 <= i <= |parts| && Walking(t, d, current, names, currentPath, parts[i..], links, o)
        decreases |parts| - i
      {
        var isLast := i == |parts| - 1;
        ghost var rest := parts[i..];
        assert rest[0] == parts[i] && rest[1..] == parts[i + 1..] && rest == [parts[i]] + parts[i + 1..];
        if isLast && o.parent {
          break;
        }
        WalkHere(t, d, current, names, currentPath, rest, links, o);
        MatchedLinks(current);
        if parts[i] == "." {
          WalkDot(t, d, current, names, currentPath, rest, links, o);
          i := i + 1;
          continue;
        }
        if parts[i] == ".." {
          WalkUp(t, d, current, names, currentPath, rest, links, o);
          currentPath := Dirname(currentPath);
          if current.parent == current {
            again, p := true, currentPath + "/" + Join(parts[i + 1..]);
            return;
          }
          current := current.parent;
          names := names[..|names| - 1];
          i := i + 1;
          continue;
        }
        var taken := TakeName(parts[i], parts[i + 1..], current, currentPath, links, o, d, names);
        if taken.Restart? {
          again, p, nlinks := true, taken.text, links + 1;
          return;
        }
        if taken.Ended? {
          outPath, errno := taken.path, taken.errno;
          return;
        }
        current, currentPath := taken.node, taken.path;
        names := names + [parts[i]];
        i := i + 1;
      }
      WalkEnd(t, d, current, names, currentPath, parts[i..], links, o);
      outPath, node := currentPath, current;
    }

    /** The walker at a name: an error, a link to start over with, or one node further. */
    method TakeName(part: string, rest: seq<string>, current: Node, path: string, links: nat, o: Options,
                    ghost d: Outcome, ghost names: seq<string>)
      returns (taken: Taken)
      requires Valid() && Walking(TreeNow(), d, current, names, path, [part] + rest, links, o)
      requires part != "." && part != ".." && !(rest == [] && o.parent)
      ensures taken.Onward? ==> Walking(TreeNow(), d, taken.node, names + [part], taken.path, rest, links, o)
      ensures taken.Restart? ==>
                d == if links + 1 == MAXLINKS then Failed(ELOOP)
                     else Follow(TreeNow(), root, Segments(taken.text), links + 1, o)
      ensures taken.Ended? ==> Answers(TreeNow(), d, o, taken.path, null, taken.errno)
    {
      ghost var t := TreeNow();
      ghost var parts := [part] + rest;
      assert t.Valid() && NodesOk() && parts[0] == part && parts[1..] == rest;
      hide HashName, Valid, NodesOk, LinksOk, IndexOk, Tree.Valid, Tree.Shaped, Tree.Entry, Canon;
      hide Segments, Join, Dirname, Normalize, Leads, Follow, Walking, Retargeted, Answers, FieldsMatch;
      WalkHere(t, d, current, names, path, parts, links, o);
      WalkName(t, d, current, names, path, parts, links, o);
      var here := Normalize(path + "/" + part);
      var next, e := LookupNode(current, part);
      if next == null {
        if e == ENOENT && rest == [] && o.noentOkay {
          AnswersNone(t, d, o, here, 0);
          return Ended(here, 0);
        }
        AnswersNone(t, d, o, "", e);
        return Ended("", e);
      }
      MatchedLinks(next);
      if next.kind.Link? && (rest != [] || o.follow) {
        if next.link == "" {
          AnswersNone(t, d, o, "", TYPE_ERROR);
          return Ended("", TYPE_ERROR);
        }
        return Restart(Retargeted(Dirname(here), next.link, rest));
      }
      taken := Onward(next, here);
    }

    /** `FS.getPath` of the entry `name` in a directory reached by `names`. */
    method GetPath(node: Node, name: string, ghost dir: Node, ghost names: seq<string>) returns (path: string)
      requires Valid() && node in nodes && dir in nodes && Leads(TreeNow(), root, names, dir)
      requires IsPart(name) && TreeNow().Entry(dir, name) == node
      ensures path == Canon(names + [name])
    {
      hide HashName, Index.Valid, NodesOk, LinksOk;
      ghost var t := TreeNow();
      LeadsLive(t, root, names, dir);
      EntryPlace(t, dir, name);
      MatchedFields(root);
      MatchedFields(node);
      path := "";
      var current := node;
      ghost var k := |names| + 1;
      ghost var all := names + [name];
      assert all[k..] == [] && all[..|names|] == names;
      SelfParent(t, names, dir, name);
      while current.parent != current
        invariant 0 <= k <= |all| && current in nodes && FieldsMatch(current)
        invariant if k == |all| then current == node else Leads(t, root, all[..k], current)
        invariant path == Join(all[k..]) && AllParts(all)
        decreases k
      {
        if k < |all| {
          LeadsParent(t, root, all[..k], current);
          assert all[..k][..k - 1] == all[..k - 1];
        }
        assert current.name == all[k - 1];
        JoinOfParts(all[k..]);
        path := if path != "" then current.name + "/" + path else current.name;
        k := k - 1;
        assert all[k..] == [all[k]] + all[k + 1..];
        current := current.parent;
        MatchedFields(current);
      }
      OnlyRootIsItsParent(t, all[..k], current);
      assert all[0..] == all;
      path := "/" + path;
    }

    // ----- Making nodes -----

    lemma FreshId(ns: set<Node>, node: Node, bound: nat)
      requires UniqueIds(ns) && (forall n :: n in ns ==> n.id < bound) && node.id == bound
      ensures UniqueIds(ns + {node})
    {
    }

    method NewNode(parent: Node, name: string, kind: Kind, link: string) returns (node: Node)
      requires IndexOk() && parent in nodes
      modifies this`nodes, this`nextInode, this`index
      ensures IndexOk() && fresh(node) && node.kind == kind && node !in old(nodes) && node !in live
      ensures nodes == old(nodes)[node := Info(parent, name, map[], EMPTY, link)]
    {
      hide HashName, Index.Valid, UniqueIds, Tree.Shaped;
      forall n | n in nodes.Keys
        ensures n.id < nextInode
      {
        assert FieldsMatch(n);
      }
      node := new Node(nextInode, kind, parent, name, link);
      nextInode := nextInode + 1;
      nodes := nodes[node := Info(parent, name, map[], EMPTY, link)];
      index := index.(next := index.next[node := null]);
      NewNodeKeepsIndex(old(index), old(TreeNow()), node, Info(parent, name, map[], EMPTY, link));
      FreshId(old(nodes.Keys), node, old(nextInode));
      assert nodes.Keys == old(nodes.Keys) + {node};
      assert NodesOk() by {
        hide LinkMatches, LinksOk;
        forall n | n in nodes
          ensures FieldsMatch(n) && n.id < nextInode
        {
          assert n != node ==> old(FieldsMatch(n));
        }
        AllMatch();
      }
      assert LinksOk() by {
        hide FieldsMatch;
        forall n | n in nodes
          ensures LinkMatches(n)
        {
          assert n != node ==> old(LinkMatches(n));
        }
        AllLinked();
      }
    }

    /** Gives directory `d` this object for its contents, which stands for `entries`. */
    method PutContents(d: Node, listing: PlainObject, ghost entries: map<string, Node>)
      requires IndexOk() && d in nodes
      modifies this`nodes, d`contents
      ensures IndexOk() && nodes == old(nodes)[d := old(nodes)[d].(contents := entries, listing := listing)]
    {
      hide HashName, Index.Valid, UniqueIds, LinkMatches, Tree.Shaped;
      assert FieldsMatch(d);
      d.contents := listing;
      nodes := nodes[d := nodes[d].(contents := entries, listing := listing)];
      assert nodes.Keys == old(nodes.Keys);
      RecordKeepsIndex(index, old(TreeNow()), d, nodes[d]);
      assert NodesOk() by {
        forall n | n in nodes
          ensures FieldsMatch(n) && n.id < nextInode
        {
          assert old(FieldsMatch(n));
        }
        AllMatch();
      }
    }

    /** What the index gives `d` changes, and its object does not. */
    ghost method Give(d: Node, entries: map<string, Node>)
      requires IndexOk() && d in nodes
      modifies this`nodes
      ensures IndexOk() && nodes == old(nodes)[d := old(nodes)[d].(contents := entries)]
    {
      hide HashName, Index.Valid, UniqueIds;
      nodes := nodes[d := nodes[d].(contents := entries)];
      assert nodes.Keys == old(nodes.Keys);
      RecordKeepsIndex(index, old(TreeNow()), d, nodes[d]);
      assert NodesOk() by {
        forall n | n in nodes
          ensures FieldsMatch(n) && n.id < nextInode
        {
          assert old(FieldsMatch(n));
        }
        AllMatch();
      }
    }

    /** `d.contents[name] = node` */
    method SetEntry(d: Node, name: string, node: Node)
      requires IndexOk() && d in nodes && !nodes[d].listing.Throws(name)
      modifies this`nodes, d`contents
      ensures IndexOk() && nodes == old(nodes)[d := old(nodes)[d].With(name, node)]
    {
      assert FieldsMatch(d);
      PutContents(d, d.contents.Set(name, node), nodes[d].contents[name := node]);
    }

    /** `delete d.contents[name]` */
    method DeleteEntry(d: Node, name: string)
      requires IndexOk() && d in nodes
      modifies this`nodes, d`contents
      ensures IndexOk() && nodes == old(nodes)[d := old(nodes)[d].Without(name)]
    {
      assert FieldsMatch(d);
      PutContents(d, d.contents.Delete(name), nodes[d].contents - {name});
    }

    /** `MEMFS.createNode`: into the index first, then into the directory's object - which may throw. */
    method CreateNode(parent: Node, name: string, kind: Kind) returns (node: Node, threw: bool)
      requires Valid() && parent in live && parent in nodes && CreateErrno(TreeNow(), parent, name) == 0
      modifies this, nameTable, parent
      ensures Valid() && fresh(node) && node.kind == kind
      ensures threw == old(nodes[parent].listing.Throws(name))
      ensures TreeNow() == old(TreeNow()).Add(parent, name, node, "")
      ensures old(TreeNow().Agrees()) ==> (TreeNow().Agrees() <==> !old(nodes[parent].listing.Trapped(name)))
    {
      hide HashName, UniqueIds, Index.Valid, LinksOk, Tree.Valid, Tree.Shaped, Tree.Agrees, Tree.Entry, CreateErrno;
      hide PlainObject.Set, PlainObject.Throws, PlainObject.Trapped;
      node := NewNode(parent, name, kind, "");
      Targeted(old(TreeNow()), parent, name, node, "");
      HashAddNode(node);
      assert FieldsMatch(parent);
      threw := parent.contents.Throws(name);
      if threw {
        Give(parent, nodes[parent].contents[name := node]);
      } else {
        SetEntry(parent, name, node);
      }
      ThrowsSetsNothing(old(nodes[parent]), name, node);
      AddedNodes(old(TreeNow()), parent, name, node);
    }

    /**
     `made` is the node in the index: the one returned, or the one left behind when its name met an
     inherited getter.
     */
    method Mknod(parent: Node, name: string, kind: Kind) returns (node: Node?, errno: nat, ghost made: Node?)
      requires Valid() && parent in live && parent in nodes
      modifies this, nameTable, parent
      ensures Valid() && errno == old(MknodErrno(TreeNow(), parent, name))
      ensures node == (if errno == 0 then made else null) && (made != null <==> errno == 0 || errno == TYPE_ERROR)
      ensures made == null ==> TreeNow() == old(TreeNow())
      ensures made != null ==>
                fresh(made) && made.kind == kind && TreeNow() == old(TreeNow()).Add(parent, name, made, "")
      ensures old(TreeNow().Agrees()) ==>
                (TreeNow().Agrees() <==> made == null || !old(nodes[parent].listing.Trapped(name)))
    {
      hide Tree.Valid, Tree.Agrees, PlainObject.Throws, PlainObject.Trapped;
      if name == "" {
        return null, EINVAL, null;
      }
      if name == "." || name == ".." {
        return null, EEXIST, null;
      }
      errno := MayCreate(parent, name);
      if errno != 0 {
        return null, errno, null;
      }
      var n, threw := CreateNode(parent, name, kind);
      made := n;
      if threw {
        return null, TYPE_ERROR, made;
      }
      node := n;
    }

    /** A symlink gets its target once it has been made. */
    method Symlink(target: string, parent: Node, name: string) returns (node: Node?, errno: nat, ghost made: Node?)
      requires Valid() && parent in live && parent in nodes
      modifies this, nameTable, parent
      ensures Valid() && errno == if target == "" then ENOENT else old(MakeErrno(TreeNow(), parent, name))
      ensures node == (if errno == 0 then made else null) && (made != null <==> errno == 0 || errno == TYPE_ERROR)
      ensures made == null ==> TreeNow() == old(TreeNow())
      ensures made != null ==>
                && fresh(made) && made.kind.Link?
                && TreeNow() == old(TreeNow()).Add(parent, name, made, if errno == 0 then target else "")
      ensures old(TreeNow().Agrees()) ==>
                (TreeNow().Agrees() <==> made == null || !old(nodes[parent].listing.Trapped(name)))
    {
      hide Tree.Valid, Tree.Agrees, PlainObject.Throws, PlainObject.Trapped;
      if target == "" {
        return null, ENOENT, null;
      }
      errno := MayCreate(parent, name);
      if errno != 0 {
        return null, errno, null;
      }
      var n, threw := CreateNode(parent, name, Link);
      made := n;
      if threw {
        return null, TYPE_ERROR, made;
      }
      node := n;
      PutLink(n, target);
      Targeted(old(TreeNow()), parent, name, n, target);
    }

    /** `node.link = target` */
    method PutLink(n: Node, target: string)
      requires IndexOk() && n in nodes
      modifies this`nodes, n`link
      ensures IndexOk() && nodes == old(nodes)[n := old(nodes)[n].(link := target)]
    {
      hide HashName, Index.Valid, UniqueIds;
      assert FieldsMatch(n);
      n.link := target;
      nodes := nodes[n := nodes[n].(link := target)];
      assert nodes.Keys == old(nodes.Keys);
      RecordKeepsIndex(index, old(TreeNow()), n, nodes[n]);
      assert NodesOk() by {
        forall m | m in nodes
          ensures FieldsMatch(m) && m.id < nextInode
        {
          assert old(FieldsMatch(m));
        }
        AllMatch();
      }
    }

    // ----- Removing and renaming -----

    method Detach(parent: Node, name: string, node: Node)
      requires Valid() && parent in live && parent in nodes && name in nodes[parent].contents
      requires node == nodes[parent].contents[name]
      modifies this`nodes, this`live, this`index, nameTable, nodes.Keys
      ensures Valid() && TreeNow() == old(TreeNow()).Remove(parent, name)
      ensures old(TreeNow().Agrees()) ==> TreeNow().Agrees()
    {
      hide HashName, UniqueIds, Index.Valid, Mirrors;
      RemoveKeepsTree(TreeNow(), parent, name);
      if TreeNow().Agrees() {
        RemoveAgrees(TreeNow(), parent, name);
      }
      assert TreeNow().Lists(parent) && TreeNow().ListsAs(parent, name);
      hide Tree.Valid, Tree.Agrees;
      assert FieldsMatch(parent);
      DeleteEntry(parent, name);
      HashRemoveNode(node);
      assert TreeNow() == old(TreeNow()).Remove(parent, name);
    }

    method Unlink(parent: Node, name: string) returns (errno: nat)
      requires Valid() && parent in live && parent in nodes
      modifies this`nodes, this`live, this`index, nameTable, nodes.Keys
      ensures Valid() && errno == old(DeleteErrno(TreeNow(), parent, name, false, false))
      ensures errno != 0 ==> TreeNow() == old(TreeNow())
      ensures errno == 0 ==> name in old(nodes[parent].contents) && TreeNow() == old(TreeNow()).Remove(parent, name)
      ensures old(TreeNow().Agrees()) ==> TreeNow().Agrees()
    {
      hide Tree.Agrees;
      var node, e := LookupNode(parent, name);
      if node == null {
        return e;
      }
      errno := MayDelete(parent, name, false, false);
      if errno != 0 {
        return;
      }
      assert TreeNow().Lists(node);
      Detach(parent, name, node);
    }

    method Rmdir(parent: Node, name: string, busy: bool) returns (errno: nat)
      requires Valid() && parent in live && parent in nodes
      modifies this`nodes, this`live, this`index, nameTable, nodes.Keys
      ensures Valid() && errno == old(RmdirErrno(TreeNow(), parent, name, busy))
      ensures errno != 0 ==> TreeNow() == old(TreeNow())
      ensures errno == 0 ==> name in old(nodes[parent].contents) && TreeNow() == old(TreeNow()).Remove(parent, name)
      ensures old(TreeNow().Agrees()) ==> TreeNow().Agrees()
    {
      hide Tree.Agrees;
      var node, e := LookupNode(parent, name);
      if node == null {
        return e;
      }
      errno := MayDelete(parent, name, true, busy);
      if errno != 0 {
        return;
      }
      assert FieldsMatch(node);
      if node.contents.Enumerates() {
        return ENOTEMPTY;
      }
      Detach(parent, name, node);
    }

    /** An unindexed node takes a new parent and name. */
    method Relocate(n: Node, d: Node, nm: string)
      requires IndexOk() && n in nodes && n !in live && d in nodes
      modifies this`nodes, n`name, n`parent
      ensures IndexOk() && nodes == old(nodes)[n := old(nodes)[n].(parent := d, name := nm)]
    {
      hide HashName, Index.Valid, UniqueIds;
      assert FieldsMatch(n);
      n.name := nm;
      n.parent := d;
      nodes := nodes[n := nodes[n].(parent := d, name := nm)];
      assert nodes.Keys == old(nodes.Keys);
      RecordKeepsIndex(index, old(TreeNow()), n, nodes[n]);
      assert NodesOk() by {
        forall m | m in nodes
          ensures FieldsMatch(m) && m.id < nextInode
        {
          assert old(FieldsMatch(m));
        }
        AllMatch();
      }
    }

    /** The tree as it was before `node` was taken out of the index for a rename. */
    ghost function TreeWith(node: Node): Tree
      reads this`nodes, this`live
    {
      TreeNow().(live := live + {node})
    }

    /**
     MEMFS's own rename, run while `node` is out of the index. It may throw on a full target, with nothing
     changed, or on entering `dir`, with the entry already gone from its old directory's object.
     */
    method MoveEntry(node: Node, dir: Node, name: string) returns (errno: nat)
      requires IndexOk() && node !in live && dir in nodes && Movable(TreeWith(node), node, dir, name)
      modifies this`nodes, this`live, this`index, nameTable, nodes.Keys
      ensures IndexOk() && node in nodes && node !in live
      ensures errno == old(MoveErrno(TreeWith(node), node, dir, name)) && errno in {0, ENOTEMPTY, TYPE_ERROR}
      ensures errno == ENOTEMPTY ==> TreeNow() == old(TreeNow())
      ensures old(TreeWith(node).HasParent(node))
      ensures errno == TYPE_ERROR ==> TreeWith(node) == old(TreeWith(node).Aborted(node, dir, name))
      ensures errno == 0 ==> TreeWith(node) == old(TreeWith(node).Move(node, dir, name))
    {
      hide HashName, Index.Valid, NodesOk, UniqueIds, LinksOk, Tree.Valid, Tree.Shaped, Tree.Entry;
      hide Tree.Move, MovedTo, Tree.Aborted, AbortedAt, PlainObject.Throws, Placed;
      var full := Vacate(node, dir, name);
      if full {
        return ENOTEMPTY;
      }
      var threw := Transfer(node, dir, name);
      if threw {
        AbortedNodes(old(TreeWith(node)), node, dir, name);
        return TYPE_ERROR;
      }
      MovedNodes(old(TreeWith(node)), node, dir, name);
      errno := 0;
    }

    /** Takes what has the name out of the index, unless a directory would replace one that is not empty. */
    method Vacate(node: Node, dir: Node, name: string) returns (full: bool)
      requires IndexOk() && node !in live && dir in nodes && Movable(TreeWith(node), node, dir, name)
      modifies this`live, this`index, nameTable, nodes.Keys`nameNext
      ensures IndexOk() && dir in nodes && node in nodes && TreeWith(node).HasParent(node)
      ensures Placed(nodes, node) && !(nodes[node].parent == dir && nodes[node].name == name)
      ensures var e := old(TreeWith(node).Entry(dir, name));
              var taken := if name in nodes[dir].contents then {nodes[dir].contents[name]} else {};
              && full == (e in nodes && node.kind.Dir? && nodes[e].listing.Enumerates()) && live <= old(live)
              && (if full then live == old(live) else TreeWith(node).live == old(TreeWith(node).live) - taken)
    {
      hide HashName, Index.Valid, UniqueIds, LinksOk;
      EntryIsIndexed(TreeWith(node), dir, name);
      assert TreeWith(node).HasParent(node) && TreeWith(node).Hangs(node);
      hide Tree.Valid, Tree.Shaped;
      var taken := FindIndexed(dir, name);
      assert taken == TreeWith(node).Entry(dir, name);
      full := false;
      if taken != null {
        assert FieldsMatch(taken);
        if node.kind.Dir? && taken.contents.Enumerates() {
          return true;
        }
        HashRemoveNode(taken);
      }
    }

    /** Out of the old directory's object, into the new one's, and the node's own fields. */
    method Transfer(node: Node, dir: Node, name: string) returns (threw: bool)
      requires IndexOk() && node in nodes && node !in live && dir in nodes
      requires Placed(nodes, node) && !(nodes[node].parent == dir && nodes[node].name == name)
      modifies this`nodes, nodes.Keys
      ensures IndexOk() && nodes.Keys == old(nodes.Keys) && node in nodes
              && threw == old(nodes[dir].listing.Throws(name))
      ensures old(nodes[node].parent in nodes)
      ensures nodes == if threw then AbortedAt(old(nodes), node, dir, name) else MovedTo(old(nodes), node, dir, name)
    {
      hide HashName, Index.Valid, UniqueIds;
      assert FieldsMatch(node) && FieldsMatch(dir);
      ghost var home := node.parent;
      AbortSteps(nodes, node, dir, name);
      DeleteEntry(node.parent, node.name);
      assert FieldsMatch(dir) && node.name == old(node.name);
      threw := dir.contents.Throws(name);
      if threw {
        // the source goes back into the index where it was
        Give(home, nodes[home].contents[node.name := node]);
        Give(dir, nodes[dir].contents - {name});
        return;
      }
      SetEntry(dir, name, node);
      Relocate(node, dir, name);
    }

    /** A throw in the middle still puts the source back in the index. */
    method Rename(oldDir: Node, oldName: string, newDir: Node, newName: string, guards: Guards) returns (errno: nat)
      requires Valid() && oldDir in live && oldDir in nodes && newDir in live && newDir in nodes
      modifies this`nodes, this`live, this`index, nameTable, nodes.Keys
      ensures Valid() && errno == old(RenameErrno(TreeNow(), oldDir, oldName, newDir, newName, guards))
      ensures TreeNow() == old(AfterRename(TreeNow(), oldDir, oldName, newDir, newName, errno))
      ensures old(TreeNow().Agrees()) ==>
                (TreeNow().Agrees() <==> old(KeepsAgreement(TreeNow(), oldDir, oldName, newDir, newName, errno)))
    {
      hide HashName, Index.Valid, NodesOk, LinksOk, Tree.Valid, Tree.Shaped, Tree.Entry, DeleteErrno, CreateErrno,
           LookupErrno;
      hide Tree.Move, Tree.Aborted, Tree.Agrees, MoveErrno, Movable, Mirrors, PlainObject.Throws, PlainObject.Trapped;
      ChecksNeverThrow(TreeNow());
      var oldNode, e := LookupNode(oldDir, oldName);
      if oldNode == null {
        return e;
      }
      if guards.sourceAbove {
        return EINVAL;
      }
      if guards.targetAbove {
        return ENOTEMPTY;
      }
      var newNode, _ := LookupNode(newDir, newName);
      if oldNode == newNode {
        return 0;
      }
      var isDir := oldNode.kind.Dir?;
      errno := MayDelete(oldDir, oldName, isDir, guards.sourceBusy);
      if errno != 0 {
        return;
      }
      if newNode != null {
        errno := MayDelete(newDir, newName, isDir, guards.targetBusy);
      } else {
        errno := MayCreate(newDir, newName);
      }
      if errno != 0 {
        return;
      }
      ghost var t := TreeNow();
      MayMove(t, oldDir, oldName, newDir, newName, guards);
      MovedAgrees(t, oldDir, oldName, newDir, newName, guards);
      hide RenameErrno;
      HashRemoveNode(oldNode);
      assert TreeWith(oldNode) == t;
      errno := MoveEntry(oldNode, newDir, newName);
      HashAddNode(oldNode);
    }

    // ----- The operations on paths -----

    /** Every path operation starts here: the directory the last part is taken in. */
    method LookupParent(cwd: string, path: string) returns (dir: Node?, errno: nat)
      requires Valid() && IsAbs(cwd)
      ensures var d := Denotes(TreeNow(), cwd, path, PARENT);
              && (d == if dir == null then Failed(errno) else Found(dir))
              && (dir != null ==> errno == 0 && dir in live && dir in nodes && path != "")
      ensures dir != null ==> exists names :: Leads(TreeNow(), root, names, dir)
    {
      hide HashName, Index.Valid, NodesOk, LinksOk, UniqueIds, Follow, Leads;
      var outPath;
      outPath, dir, errno := LookupPath(cwd, path, PARENT);
    }

    /** `made`: as for `Mknod`. */
    method MknodPath(cwd: string, path: string, kind: Kind) returns (node: Node?, errno: nat, ghost made: Node?)
      requires Valid() && IsAbs(cwd)
      modifies this, nameTable, nodes.Keys
      ensures Valid() && errno == old(MknodPathErrno(TreeNow(), cwd, path))
      ensures node == if errno == 0 then made else null
      ensures var p := old(Denotes(TreeNow(), cwd, path, PARENT));
              && (made != null <==> p.Found? && (errno == 0 || errno == TYPE_ERROR))
              && (made == null ==> TreeNow() == old(TreeNow()))
              && (made != null ==>
                    && p.node in old(nodes) && fresh(made) && made.kind == kind
                    && TreeNow() == old(TreeNow()).Add(p.node, Basename(path), made, ""))
      ensures old(TreeNow().Agrees()) ==>
                (TreeNow().Agrees() <==> made == null || !old(TrappedAt(TreeNow(), cwd, path)))
    {
      hide HashName, Index.Valid, NodesOk, LinksOk, UniqueIds, Follow, Leads, Tree.Agrees, PlainObject.Trapped;
      var dir, e := LookupParent(cwd, path);
      if dir == null {
        return null, e, null;
      }
      node, errno, made := Mknod(dir, Basename(path), kind);
    }

    method SymlinkPath(cwd: string, target: string, path: string) returns (node: Node?, errno: nat, ghost made: Node?)
      requires Valid() && IsAbs(cwd)
      modifies this, nameTable, nodes.Keys
      ensures Valid() && errno == old(SymlinkPathErrno(TreeNow(), cwd, target, path))
      ensures node == (if errno == 0 then made else null)
      ensures var p := old(Denotes(TreeNow(), cwd, path, PARENT));
              && (made != null <==> target != "" && p.Found? && (errno == 0 || errno == TYPE_ERROR))
              && (made == null ==> TreeNow() == old(TreeNow()))
              && (made != null ==>
                    && p.node in old(nodes) && fresh(made) && made.kind.Link?
                    && TreeNow() == old(TreeNow()).Add(p.node, Basename(path), made, if errno == 0 then target else ""))
      ensures old(TreeNow().Agrees()) ==>
                (TreeNow().Agrees() <==> made == null || !old(TrappedAt(TreeNow(), cwd, path)))
    {
      hide HashName, Index.Valid, NodesOk, LinksOk, UniqueIds, Follow, Leads, Tree.Agrees, PlainObject.Trapped;
      var resolved := ResolvePath(cwd, [target]);
      ResolvesUnlessEmpty(cwd, target);
      if resolved == "" {
        return null, ENOENT, null;
      }
      var dir, e := LookupParent(cwd, path);
      if dir == null {
        return null, e, null;
      }
      node, errno, made := Symlink(target, dir, Basename(path));
    }

    method UnlinkPath(cwd: string, path: string) returns (errno: nat)
      requires Valid() && IsAbs(cwd)
      modifies this`nodes, this`live, this`index, nameTable, nodes.Keys
      ensures Valid() && errno == old(UnlinkPathErrno(TreeNow(), cwd, path))
      ensures errno != 0 ==> TreeNow() == old(TreeNow())
      ensures errno == 0 ==>
                Removed(old(TreeNow()), old(Denotes(TreeNow(), cwd, path, PARENT)), Basename(path), TreeNow())
      ensures old(TreeNow().Agrees()) ==> TreeNow().Agrees()
    {
      hide HashName, Index.Valid, NodesOk, LinksOk, UniqueIds, Follow, Leads, Tree.Agrees;
      var dir, e := LookupParent(cwd, path);
      if dir == null {
        return e;
      }
      errno := Unlink(dir, Basename(path));
    }

    method RmdirPath(cwd: string, path: string) returns (errno: nat)
      requires Valid() && IsAbs(cwd)
      modifies this`nodes, this`live, this`index, nameTable, nodes.Keys
      ensures Valid() && errno == old(RmdirPathErrno(TreeNow(), cwd, path))
      ensures errno != 0 ==> TreeNow() == old(TreeNow())
      ensures errno == 0 ==>
                Removed(old(TreeNow()), old(Denotes(TreeNow(), cwd, path, PARENT)), Basename(path), TreeNow())
      ensures old(TreeNow().Agrees()) ==> TreeNow().Agrees()
    {
      hide HashName, Index.Valid, NodesOk, LinksOk, UniqueIds, Follow, Leads, Tree.Agrees;
      var dir, e := LookupParent(cwd, path);
      if dir == null {
        return e;
      }
      var name := Basename(path);
      BasenameOf(path);
      var node, _ := LookupNode(dir, name);
      var busy := IsCwd(cwd, dir, name, node);
      errno := Rmdir(dir, name, busy);
    }

    /** `FS.rename`: both parents looked up, the guards computed from the path text, then the move. */
    method RenamePath(cwd: string, oldPath: string, newPath: string) returns (errno: nat)
      requires Valid() && IsAbs(cwd)
      modifies this`nodes, this`live, this`index, nameTable, nodes.Keys
      ensures Valid() && errno == old(RenamePathErrno(TreeNow(), cwd, oldPath, newPath))
      ensures var p1 := old(Denotes(TreeNow(), cwd, oldPath, PARENT));
              var p2 := old(Denotes(TreeNow(), cwd, newPath, PARENT));
              if p1.Found? && p2.Found? then
                && p1.node in old(nodes) && p2.node in old(nodes)
                && TreeNow() ==
                     AfterRename(old(TreeNow()), p1.node, Basename(oldPath), p2.node, Basename(newPath), errno)
                && (old(TreeNow().Agrees()) ==>
                      (TreeNow().Agrees() <==>
                       KeepsAgreement(old(TreeNow()), p1.node, Basename(oldPath), p2.node, Basename(newPath), errno)))
              else TreeNow() == old(TreeNow())
    {
      hide HashName, Index.Valid, NodesOk, LinksOk, UniqueIds, Follow, Relative, Tree.Agrees, KeepsAgreement;
      ghost var t := TreeNow();
      var oldName, newName := Basename(oldPath), Basename(newPath);
      var p1, oldDir, e1 := LookupPath(cwd, oldPath, PARENT);
      if oldDir == null {
        return e1;
      }
      var p2, newDir, e2 := LookupPath(cwd, newPath, PARENT);
      if newDir == null {
        return e2;
      }
      BasenameOf(oldPath);
      BasenameOf(newPath);
      DirnameSays(oldPath);
      DirnameSays(newPath);
      var oldNode, _ := LookupNode(oldDir, oldName);
      var newNode, _ := LookupNode(newDir, newName);
      var r1 := RelativePath(cwd, oldPath, Dirname(newPath));
      var r2 := RelativePath(cwd, newPath, Dirname(oldPath));
      var busy1 := IsCwd(cwd, oldDir, oldName, oldNode);
      var busy2 := IsCwd(cwd, newDir, newName, newNode);
      var guards := Guards(r1 == "" || r1[0] != '.', r2 == "" || r2[0] != '.', busy1, busy2);
      errno := Rename(oldDir, oldName, newDir, newName, guards);
    }

    /** `FS.getPath(node) === FS.cwd()` for the entry `name` of a directory. */
    method IsCwd(cwd: string, dir: Node, name: string, node: Node?) returns (busy: bool)
      requires Valid() && dir in live && dir in nodes && node == TreeNow().Entry(dir, name)
      requires IsPart(name) || name == "/"
      requires exists names :: Leads(TreeNow(), root, names, dir)
      ensures busy == IsBusy(TreeNow(), cwd, dir, name)
    {
      if node == null || node == root || name == "/" {
        return false;
      }
      ghost var names :| Leads(TreeNow(), root, names, dir);
      EntryPlace(TreeNow(), dir, name);
      var path := GetPath(node, name, dir, names);
      busy := path == cwd;
      forall other | Leads(TreeNow(), root, other, dir)
        ensures other == names
      {
        LeadsUnique(TreeNow(), names, other, dir);
      }
    }
  }

  const PARENT := Options(true, false, false)

  /** The object of the directory a path leads to would not store the path's last part. */
  ghost predicate TrappedAt(t: Tree, cwd: string, path: string)
    requires t.Valid()
  {
    var p := Denotes(t, cwd, path, PARENT);
    p.Found? && p.node in t.nodes && t.nodes[p.node].listing.Trapped(Basename(path))
  }

  ghost function MknodPathErrno(t: Tree, cwd: string, path: string): nat
    requires t.Valid() && IsAbs(cwd)
  {
    var p := Denotes(t, cwd, path, PARENT);
    if p.Failed? then p.errno
    else MknodErrno(t, p.node, Basename(path))
  }

  ghost function SymlinkPathErrno(t: Tree, cwd: string, target: string, path: string): nat
    requires t.Valid() && IsAbs(cwd)
  {
    var p := Denotes(t, cwd, path, PARENT);
    if target == "" then ENOENT
    else if p.Failed? then p.errno
    else MakeErrno(t, p.node, Basename(path))
  }

  ghost function UnlinkPathErrno(t: Tree, cwd: string, path: string): nat
    requires t.Valid() && IsAbs(cwd)
  {
    var p := Denotes(t, cwd, path, PARENT);
    if p.Failed? then p.errno
    else DeleteErrno(t, p.node, Basename(path), false, false)
  }

  ghost function RmdirPathErrno(t: Tree, cwd: string, path: string): nat
    requires t.Valid() && IsAbs(cwd)
  {
    var p := Denotes(t, cwd, path, PARENT);
    if p.Failed? then p.errno
    else RmdirErrno(t, p.node, Basename(path), IsBusy(t, cwd, p.node, Basename(path)))
  }

  /** The entry `name` of the directory found is gone, and nothing else. */
  ghost predicate Removed(t: Tree, p: Outcome, name: string, t': Tree) {
    p.Found? && p.node in t.nodes && name in t.nodes[p.node].contents && t' == t.Remove(p.node, name)
  }

  ghost function RenamePathErrno(t: Tree, cwd: string, oldPath: string, newPath: string): nat
    requires t.Valid() && IsAbs(cwd)
  {
    var p1 := Denotes(t, cwd, oldPath, PARENT);
    var p2 := Denotes(t, cwd, newPath, PARENT);
    if p1.Failed? then p1.errno
    else if p2.Failed? then p2.errno
    else
      RenameErrno(t, p1.node, Basename(oldPath), p2.node, Basename(newPath),
                  Guards(SaysInside(cwd, oldPath, Dirname(newPath)), SaysInside(cwd, newPath, Dirname(oldPath)),
                         IsBusy(t, cwd, p1.node, Basename(oldPath)), IsBusy(t, cwd, p2.node, Basename(newPath))))
  }

  /** The entry's path, as the names on the way to it spell it, is the working directory. */
  ghost predicate IsBusy(t: Tree, cwd: string, d: Node, nm: string)
    requires t.Valid() && d in t.nodes
  {
    && t.Entry(d, nm) != null && t.Entry(d, nm) != t.root && nm != "/"
    && exists names :: Leads(t, t.root, names, d) && Canon(names + [nm]) == cwd
  }

  ghost function Renamed(t: Tree, d1: Node, nm1: string, d2: Node, nm2: string): Tree
    requires d1 in t.nodes && d2 in t.nodes
  {
    var src := t.Entry(d1, nm1);
    if src == t.Entry(d2, nm2) || src == null || src !in t.nodes || !t.HasParent(src) then t else t.Move(src, d2, nm2)
  }

  /** The tree after a rename that threw on entering the target's directory. */
  ghost function Interrupted(t: Tree, d1: Node, nm1: string, d2: Node, nm2: string): Tree
    requires d1 in t.nodes && d2 in t.nodes
  {
    var src := t.Entry(d1, nm1);
    if src == null || src !in t.nodes || !t.HasParent(src) then t else t.Aborted(src, d2, nm2)
  }

  ghost function AfterRename(t: Tree, d1: Node, nm1: string, d2: Node, nm2: string, errno: nat): Tree
    requires d1 in t.nodes && d2 in t.nodes
  {
    if errno == 0 then Renamed(t, d1, nm1, d2, nm2)
    else if errno == TYPE_ERROR then Interrupted(t, d1, nm1, d2, nm2)
    else t
  }

  /** When a rename that ended in `errno` leaves the directories' objects in agreement with the index. */
  ghost predicate KeepsAgreement(t: Tree, d1: Node, nm1: string, d2: Node, nm2: string, errno: nat)
    requires d1 in t.nodes && d2 in t.nodes
  {
    if errno == 0 then t.Entry(d1, nm1) == t.Entry(d2, nm2) || !t.nodes[d2].listing.Trapped(nm2)
    else errno == TYPE_ERROR ==> nm1 == PROTO
  }

  /** A rename past its checks: a valid tree whichever way it ends, and when its objects follow. */
  lemma MovedAgrees(t: Tree, d1: Node, nm1: string, d2: Node, nm2: string, g: Guards)
    requires t.Valid() && d1 in t.live && d2 in t.live && d1 in t.nodes && d2 in t.nodes
    requires var src := t.Entry(d1, nm1);
             && src != null && src != t.Entry(d2, nm2) && src in t.nodes && t.HasParent(src) && Movable(t, src, d2, nm2)
             && RenameErrno(t, d1, nm1, d2, nm2, g) == MoveErrno(t, src, d2, nm2)
    ensures var errno := RenameErrno(t, d1, nm1, d2, nm2, g);
            var t' := AfterRename(t, d1, nm1, d2, nm2, errno);
            && t'.Valid()
            && (t.Agrees() ==> (t'.Agrees() <==> KeepsAgreement(t, d1, nm1, d2, nm2, errno)))
  {
    var src := t.Entry(d1, nm1);
    var errno := RenameErrno(t, d1, nm1, d2, nm2, g);
    EntryPlace(t, d1, nm1);
    if errno != ENOTEMPTY {
      hide RenameErrno, Tree.Valid, Tree.Agrees, Tree.Move, Tree.Aborted, Tree.Entry, Movable, PlainObject.Trapped;
      if errno == 0 {
        MoveKeepsTree(t, src, d2, nm2);
        if t.Agrees() {
          MoveAgreesIff(t, src, d2, nm2);
        }
      } else {
        AbortKeepsTree(t, src, d2, nm2);
        if t.Agrees() {
          AbortAgreesIff(t, src, d2, nm2);
        }
      }
    }
  }

  lemma MayMove(t: Tree, d1: Node, nm1: string, d2: Node, nm2: string, g: Guards)
    requires t.Valid() && d1 in t.live && d2 in t.live && d1 in t.nodes && d2 in t.nodes
    requires var src, dst := t.Entry(d1, nm1), t.Entry(d2, nm2);
             && src != null && !g.sourceAbove && !g.targetAbove && src != dst
             && DeleteErrno(t, d1, nm1, src.kind.Dir?, g.sourceBusy) == 0
             && (if dst != null then DeleteErrno(t, d2, nm2, src.kind.Dir?, g.targetBusy)
                 else CreateErrno(t, d2, nm2)) == 0
    ensures var src := t.Entry(d1, nm1);
            && src in t.nodes && t.HasParent(src) && Movable(t, src, d2, nm2)
            && RenameErrno(t, d1, nm1, d2, nm2, g) == MoveErrno(t, src, d2, nm2)
            && Renamed(t, d1, nm1, d2, nm2) == t.Move(src, d2, nm2)
            && Interrupted(t, d1, nm1, d2, nm2) == t.Aborted(src, d2, nm2)
  {
    var src, dst := t.Entry(d1, nm1), t.Entry(d2, nm2);
    EntryPlace(t, d1, nm1);
    if dst != null {
      EntryPlace(t, d2, nm2);
      assert t.Lists(dst);
    }
  }

  /** What it takes to remove a directory: "__proto__" must never have been created in it, nor moved there. */
  lemma RmdirSucceedsIff(t: Tree, d: Node, nm: string, busy: bool)
    requires t.Agrees() && d in t.live && d in t.nodes
    ensures RmdirErrno(t, d, nm, busy) == 0 <==>
            var n := t.Entry(d, nm);
            && n in t.nodes && n.kind.Dir? && t.nodes[n].parent != n && !busy
            && t.nodes[n].contents == map[] && t.nodes[n].listing.proto == null
  {
    var n := t.Entry(d, nm);
    if n != null {
      EntryPlace(t, d, nm);
      LooksEmptyIff(t, n);
    }
  }

  /**
   Creating "__proto__" in an empty directory and unlinking it again leaves a directory without
   children that can no longer be removed, while its object still reads the node the index dropped.
   */
  lemma StaleProtoBlocksRmdir(t: Tree, d: Node, nm: string, child: Node, n: Node)
    requires t.Agrees() && d in t.live && d in t.nodes && n !in t.nodes && !n.kind.Dir?
    requires t.Entry(d, nm) == child && RmdirErrno(t, d, nm, false) == 0
    ensures child in t.nodes && MknodErrno(t, child, PROTO) == 0
    ensures var t' := t.Add(child, PROTO, n, "");
            && child in t'.nodes && DeleteErrno(t', child, PROTO, false, false) == 0
            && PROTO in t'.nodes[child].contents
            && var t'' := t'.Remove(child, PROTO);
               && d in t''.nodes && child in t''.nodes && t''.Entry(d, nm) == child
               && t''.nodes[child].contents == map[] && t''.Entry(child, PROTO) == null
               && t''.nodes[child].listing.proto == n && RmdirErrno(t'', d, nm, false) == ENOTEMPTY
  {
    RmdirSucceedsIff(t, d, nm, false);
    EntryPlace(t, d, nm);
    AddKeepsTree(t, child, PROTO, n, "");
    assert t.Lists(child);
    var c := t.nodes[child].contents;
    assert c[PROTO := n] - {PROTO} == c;
    hide Tree.Valid, Tree.Shaped;
  }

  /**
   A rename to a free name can be undone. The two path checks of the way back are those of the way
   there, exchanged; what is left is that a directory may by then be the working directory, and what
   "__proto__" was set to in either directory.
   */
  lemma RenameBackRestores(t: Tree, d1: Node, nm1: string, d2: Node, nm2: string, g: Guards, busy: bool, busy2: bool)
    requires t.Agrees() && d1 in t.live && d2 in t.live && d1 in t.nodes && d2 in t.nodes
    requires t.Entry(d1, nm1) != null && t.Entry(d2, nm2) == null && nm2 != "/"
    requires RenameErrno(t, d1, nm1, d2, nm2, g) == 0 && d2 != t.Entry(d1, nm1)
    ensures var t', src := Renamed(t, d1, nm1, d2, nm2), t.Entry(d1, nm1);
            var back := Guards(g.targetAbove, g.sourceAbove, busy, busy2);
            && d1 in t'.nodes && d2 in t'.nodes
            && src in t.nodes && t.HasParent(src)
            && RenameErrno(t', d2, nm2, d1, nm1, back) ==
                 (if src.kind.Dir? && busy then EBUSY
                  else if nm1 in GETTERS && (t.nodes[d1].listing.proto != null || (d1 == d2 && nm2 == PROTO))
                  then TYPE_ERROR
                  else 0)
            && (Renamed(t', d2, nm2, d1, nm1) == t <==> Traceless(t, src, d2, nm2))
  {
    var src := t.Entry(d1, nm1);
    MayMove(t, d1, nm1, d2, nm2, g);
    EntryPlace(t, d1, nm1);
    MayMoveBack(t, src, d2, nm2);
    MoveBackRestoresIff(t, src, d2, nm2);
    hide Tree.Move, Tree.Valid, Tree.Shaped, Movable;
  }
}
