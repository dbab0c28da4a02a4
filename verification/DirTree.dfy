/**
 The directory tree as values: who is whose parent, under which name, and which nodes the
 hash index holds. Nodes themselves are the file system's mutable objects; a `Tree` is one
 snapshot of their fields.
 */
module DirTree {
  datatype Kind = Dir | File | Link | Device

  class Node {
    const id: nat
    const kind: Kind
    var name: string
    var parent: Node            // the root is its own parent
    var nameNext: Node?         // next node in the same hash chain
    var contents: PlainObject   // a directory's children, by name
    var link: string            // a symlink's target; "" where none was given

    constructor Root(id: nat)
      ensures this.id == id && kind == Dir && name == "/" && parent == this && contents == EMPTY && link == ""
      ensures nameNext == null
    {
      this.id, kind, name, link := id, Dir, "/", "";
      parent, nameNext, contents := this, null, EMPTY;
    }

    constructor (id: nat, kind: Kind, parent: Node, name: string, link: string)
      ensures this.id == id && this.kind == kind && this.name == name && this.parent == parent
      ensures contents == EMPTY && this.link == link && nameNext == null
    {
      this.id, this.kind, this.name, this.link := id, kind, name, link;
      this.parent, nameNext, contents := parent, null, EMPTY;
    }
  }

  const PROTO := "__proto__"

  // The accessors of the class `FSNode`: two with getter and setter, two with a getter only.
  const SETTERS := {"read", "write"}
  const GETTERS := {"isFolder", "isDevice"}

  /**
   A JavaScript object literal used as a dictionary: its own properties (null stands for a number), and
   its prototype where one was set (a node, whose own fields are enumerable; the default has none). A
   node as prototype also brings in the accessors of its class.
   */
  datatype PlainObject = PlainObject(own: map<string, Node?>, proto: Node?)
  {
    /** `o[name] = n` would run into an inherited accessor. */
    predicate Trapped(name: string) { proto != null && name !in own && name in SETTERS + GETTERS }

    /** `o[name] = n` throws: the inherited accessor has no setter. */
    predicate Throws(name: string) { Trapped(name) && name in GETTERS }

    /**
     `o[name] = n`, where it does not throw. For "__proto__" this sets the prototype; the setters of
     "read" and "write" store nothing under the name, but a number under "mode".
     */
    function Set(name: string, n: Node): PlainObject {
      if name == PROTO then this.(proto := n)
      else if !Trapped(name) then this.(own := own[name := n])
      else if name in SETTERS then this.(own := own["mode" := null])
      else this
    }

    /** `delete o[name]`: only properties of its own, and "__proto__" is none. */
    function Delete(name: string): PlainObject { this.(own := own - {name}) }

    /** `for (var i in o)` finds something, own or inherited. */
    predicate Enumerates() { own != map[] || proto != null }
  }

  const EMPTY := PlainObject(map[], null)

  /** The object holds exactly these entries, as far as an object can. */
  ghost predicate Mirrors(o: PlainObject, entries: map<string, Node>) {
    o.own == entries - {PROTO} && (PROTO in entries ==> o.proto == entries[PROTO])
  }

  /** The names that behave otherwise than in a dictionary, and how. */
  lemma SetSays(o: PlainObject, name: string, n: Node)
    ensures o.Set("__proto__", n) == PlainObject(o.own, n)
    ensures name != "__proto__" ==> o.Set(name, n).proto == o.proto
    ensures var taken := o.proto != null && name !in o.own;
            && (o.Throws(name) <==> taken && (name == "isFolder" || name == "isDevice"))
            && (taken && (name == "read" || name == "write") ==> o.Set(name, n).own == o.own["mode" := null])
            && (name != "__proto__" && !(taken && (name == "read" || name == "write")) && !o.Throws(name) ==>
                  o.Set(name, n).own == o.own[name := n])
  {
  }

  lemma SetMirrorsIff(o: PlainObject, entries: map<string, Node>, name: string, n: Node)
    requires Mirrors(o, entries)
    ensures Mirrors(o.Set(name, n), entries[name := n]) <==> !o.Trapped(name)
  {
    if name == PROTO {
      assert entries[name := n] - {PROTO} == entries - {PROTO};
    } else {
      assert entries[name := n] - {PROTO} == (entries - {PROTO})[name := n];
      assert name in entries[name := n] - {PROTO};
    }
  }

  lemma DeleteMirrors(o: PlainObject, entries: map<string, Node>, name: string)
    requires Mirrors(o, entries)
    ensures Mirrors(o.Delete(name), entries - {name})
  {
    assert (entries - {name}) - {PROTO} == (entries - {PROTO}) - {name};
  }

  /**
   A node's fields at one moment, beside the children the index gives it: `contents` is what a
   dictionary would hold, `listing` what the object literal holds.
   */
  datatype Info = Info(parent: Node, name: string, contents: map<string, Node>, listing: PlainObject, link: string)
  {
    function With(nm: string, n: Node): Info { this.(contents := contents[nm := n], listing := listing.Set(nm, n)) }
    function Without(nm: string): Info { this.(contents := contents - {nm}, listing := listing.Delete(nm)) }
    function Unlisted(nm: string): Info { this.(listing := listing.Delete(nm)) }
  }

  datatype Tree = Tree(root: Node, nodes: map<Node, Info>, live: set<Node>)  // live: the nodes in the hash index
  {
    ghost predicate Shaped() {
      && root in live && root.kind.Dir?
      && (forall n :: n in live ==> n in nodes)
      && (forall n {:trigger nodes[n].parent} :: n in nodes ==> HasParent(n))
    }

    ghost predicate HasParent(n: Node)
      requires n in nodes
    {
      nodes[n].parent in nodes
    }

    /**
     An indexed node hangs, under its own name, in a directory. That one may have left the index before it,
     where it only looked empty.
     */
    ghost predicate Hangs(n: Node)
      requires Shaped() && n in nodes
    {
      n in live && n != root ==>
        var i := nodes[n];
        i.parent in nodes && i.name in nodes[i.parent].contents && nodes[i.parent].contents[i.name] == n
    }

    /** What a directory lists is indexed under it; only directories list anything. */
    ghost predicate Lists(d: Node)
      requires Shaped() && d in nodes
    {
      && (!d.kind.Dir? ==> nodes[d].contents == map[] && nodes[d].listing == EMPTY)
      && forall nm {:trigger ListsAs(d, nm)} :: nm in nodes[d].contents ==> ListsAs(d, nm)
    }

    ghost predicate ListsAs(d: Node, nm: string)
      requires Shaped() && d in nodes && nm in nodes[d].contents
    {
      var n := nodes[d].contents[nm];
      n in live && nodes[n].parent == d && nodes[n].name == nm && n != root
    }

    /** What the index gives each directory is a dictionary of its children. */
    ghost predicate Valid() {
      && Shaped()
      && nodes[root].parent == root && nodes[root].name == "/" && "/" !in nodes[root].contents
      && forall n {:trigger Hangs(n)} {:trigger Lists(n)} :: n in nodes ==> Hangs(n) && Lists(n)
    }

    ghost predicate Shows(d: Node)
      requires d in nodes
    {
      Mirrors(nodes[d].listing, nodes[d].contents)
    }

    /** The directories' own objects and the index name the same children. */
    ghost predicate Agrees() {
      Valid() && forall d {:trigger Shows(d)} :: d in nodes ==> Shows(d)
    }


    /** What a directory's name denotes. The root also answers to "/" under itself. */
    ghost function Entry(d: Node, nm: string): Node?
      requires d in nodes
    {
      if !d.kind.Dir? then null
      else if nm in nodes[d].contents then nodes[d].contents[nm]
      else if d == root && nm == "/" then root
      else null
    }

    ghost function With(d: Node, info: Info): Tree { this.(nodes := nodes[d := info]) }

    ghost function Add(d: Node, nm: string, n: Node, target: string): Tree
      requires d in nodes
    {
      With(d, nodes[d].With(nm, n)).With(n, Info(d, nm, map[], EMPTY, target)).(live := live + {n})
    }

    ghost function Remove(d: Node, nm: string): Tree
      requires d in nodes && nm in nodes[d].contents
    {
      With(d, nodes[d].Without(nm)).(live := live - {nodes[d].contents[nm]})
    }

    /** `n` leaves its directory for `d`, taking the name `nm` from whatever had it. */
    ghost function Move(n: Node, d: Node, nm: string): Tree
      requires n in nodes && HasParent(n) && d in nodes
    {
      var was := nodes[n];
      var taken := if nm in nodes[d].contents then {nodes[d].contents[nm]} else {};
      var left := With(was.parent, nodes[was.parent].Without(was.name));
      var entered := left.With(d, left.nodes[d].With(nm, n));
      entered.With(n, entered.nodes[n].(parent := d, name := nm)).(live := live - taken)
    }

    /**
     The same move where entering `d` throws: what had the name is out of the index, the old directory's
     object no longer has `n`, and `n` itself is where it was.
     */
    ghost function Aborted(n: Node, d: Node, nm: string): Tree
      requires n in nodes && HasParent(n) && d in nodes
    {
      var t := if nm in nodes[d].contents then Remove(d, nm) else this;
      t.With(nodes[n].parent, t.nodes[nodes[n].parent].Unlisted(nodes[n].name))
    }
  }

  /** A directory's name denotes a node exactly when the index holds that node under it. */
  lemma EntryIsIndexed(t: Tree, d: Node, nm: string)
    requires t.Valid() && d in t.live && d.kind.Dir?
    ensures t.Entry(d, nm) == null ==> forall n :: n in t.live ==> !(t.nodes[n].parent == d && t.nodes[n].name == nm)
    ensures t.Entry(d, nm) != null ==>
              var e := t.Entry(d, nm);
              e in t.live && t.nodes[e].parent == d && t.nodes[e].name == nm &&
              forall n :: n in t.live && t.nodes[n].parent == d && t.nodes[n].name == nm ==> n == e
  {
    assert t.Lists(d);
    if nm in t.nodes[d].contents {
      assert t.ListsAs(d, nm);
    }
    forall n | n in t.live && t.nodes[n].parent == d && t.nodes[n].name == nm
      ensures n == t.Entry(d, nm)
    {
      assert t.Hangs(n);
    }
  }

  lemma AddKeepsNode(t: Tree, d: Node, nm: string, n: Node, target: string, m: Node)
    requires t.Valid() && d in t.live && d.kind.Dir? && nm !in t.nodes[d].contents && n !in t.nodes
    requires t.Add(d, nm, n, target).Shaped() && m in t.nodes
    ensures t.Add(d, nm, n, target).Hangs(m) && t.Add(d, nm, n, target).Lists(m)
  {
    var t' := t.Add(d, nm, n, target);
    assert t.Hangs(m) && t.Lists(m);
    assert t.HasParent(m);
    hide Tree.Valid, PlainObject.Set;
    forall k | k in t'.nodes[m].contents
      ensures t'.ListsAs(m, k)
    {
      if k in t.nodes[m].contents {
        assert t.ListsAs(m, k);
      }
    }
  }

  lemma AddKeepsShape(t: Tree, d: Node, nm: string, n: Node, target: string)
    requires t.Shaped() && d in t.nodes && n !in t.nodes
    ensures t.Add(d, nm, n, target).Shaped()
  {
    var t' := t.Add(d, nm, n, target);
    forall m | m in t'.nodes
      ensures t'.HasParent(m)
    {
      if m != n {
        assert t.HasParent(m);
      }
    }
  }

  lemma AddKeepsTree(t: Tree, d: Node, nm: string, n: Node, target: string)
    requires t.Valid() && d in t.live && d.kind.Dir? && t.Entry(d, nm) == null && n !in t.nodes
    ensures t.Add(d, nm, n, target).Valid()
  {
    AddKeepsShape(t, d, nm, n, target);
    assert d in t.nodes && n !in t.live && t.root in t.nodes;
    hide Tree.Shaped;
    var t' := t.Add(d, nm, n, target);
    forall m | m in t'.nodes
      ensures t'.Hangs(m) && t'.Lists(m)
    {
      if m != n {
        AddKeepsNode(t, d, nm, n, target, m);
      }
    }
  }

  lemma RemoveKeepsNode(t: Tree, d: Node, nm: string, m: Node)
    requires t.Valid() && d in t.nodes && nm in t.nodes[d].contents && m in t.nodes
    requires t.Remove(d, nm).Shaped()
    ensures t.Remove(d, nm).Hangs(m) && t.Remove(d, nm).Lists(m)
  {
    var t' := t.Remove(d, nm);
    assert t.Lists(d) && t.ListsAs(d, nm);
    assert t.Hangs(m) && t.Lists(m) && t.HasParent(m);
    hide PlainObject.Delete;
    forall k | k in t'.nodes[m].contents
      ensures t'.ListsAs(m, k)
    {
      assert t.ListsAs(m, k);
    }
  }

  lemma RemoveKeepsShape(t: Tree, d: Node, nm: string)
    requires t.Shaped() && d in t.nodes && nm in t.nodes[d].contents && t.nodes[d].contents[nm] != t.root
    ensures t.Remove(d, nm).Shaped()
  {
    var t' := t.Remove(d, nm);
    forall m | m in t'.nodes
      ensures t'.HasParent(m)
    {
      assert t.HasParent(m);
    }
  }

  lemma RemoveKeepsTree(t: Tree, d: Node, nm: string)
    requires t.Valid() && d in t.nodes && nm in t.nodes[d].contents
    ensures t.Remove(d, nm).Valid()
  {
    var t' := t.Remove(d, nm);
    assert t.Lists(d) && t.ListsAs(d, nm);
    RemoveKeepsShape(t, d, nm);
    hide Tree.Shaped;
    forall m | m in t'.nodes
      ensures t'.Hangs(m) && t'.Lists(m)
    {
      RemoveKeepsNode(t, d, nm, m);
    }
  }

  ghost predicate Movable(t: Tree, n: Node, d: Node, nm: string) {
    && t.Valid() && n in t.live && n != t.root && d in t.live && d.kind.Dir?
    && t.Entry(d, nm) != n && t.Entry(d, nm) != t.root
  }

  lemma MoveKeepsShape(t: Tree, n: Node, d: Node, nm: string)
    requires Movable(t, n, d, nm)
    ensures t.HasParent(n) && t.Move(n, d, nm).Shaped()
  {
    assert t.Hangs(n) && t.Lists(d) && t.HasParent(n);
    var t' := t.Move(n, d, nm);
    forall m | m in t'.nodes
      ensures t'.HasParent(m)
    {
      assert t.HasParent(m);
    }
  }

  /** The tree after a move, one record at a time. */
  lemma MovedRecord(t: Tree, n: Node, d: Node, nm: string, m: Node)
    requires n in t.nodes && t.HasParent(n) && d in t.nodes && m in t.nodes
    ensures var t', was, i := t.Move(n, d, nm), t.nodes[n], t.nodes[m];
            var kept := if m == was.parent then i.Without(was.name) else i;
            && m in t'.nodes && t'.root == t.root
            && t'.live == t.live - (if nm in t.nodes[d].contents then {t.nodes[d].contents[nm]} else {})
            && t'.nodes[m].contents == (if m == d then kept.With(nm, n) else kept).contents
            && t'.nodes[m].listing == (if m == d then kept.With(nm, n) else kept).listing
            && t'.nodes[m].parent == (if m == n then d else i.parent)
            && t'.nodes[m].name == (if m == n then nm else i.name)
            && t'.nodes[m].link == i.link
  {
    hide Tree.Valid, Tree.Shaped;
  }

  lemma MoveKeepsNode(t: Tree, n: Node, d: Node, nm: string, m: Node)
    requires Movable(t, n, d, nm) && m in t.nodes && t.HasParent(n) && t.Move(n, d, nm).Shaped()
    ensures t.Move(n, d, nm).Hangs(m)
  {
    assert t.Hangs(n) && t.Lists(d) && t.Hangs(m) && t.HasParent(m);
    hide Tree.Valid, Tree.Move;
    if nm in t.nodes[d].contents {
      assert t.ListsAs(d, nm);
    }
    MovedRecord(t, n, d, nm, m);
    MovedRecord(t, n, d, nm, d);
    MovedRecord(t, n, d, nm, t.nodes[m].parent);
  }

  lemma MoveKeepsList(t: Tree, n: Node, d: Node, nm: string, m: Node)
    requires Movable(t, n, d, nm) && m in t.nodes && t.HasParent(n) && t.Move(n, d, nm).Shaped()
    ensures t.Move(n, d, nm).Lists(m)
  {
    var t' := t.Move(n, d, nm);
    assert t.Hangs(n) && t.Lists(d) && t.Lists(m);
    hide Tree.Valid, Tree.Move;
    hide PlainObject.Set, PlainObject.Delete;
    MovedRecord(t, n, d, nm, m);
    MovedRecord(t, n, d, nm, n);
    if nm in t.nodes[d].contents {
      assert t.ListsAs(d, nm);
    }
    forall k | k in t'.nodes[m].contents
      ensures t'.ListsAs(m, k)
    {
      if k in t.nodes[m].contents {
        assert t.ListsAs(m, k);
        MovedRecord(t, n, d, nm, t.nodes[m].contents[k]);
      }
    }
  }

  lemma MoveKeepsTree(t: Tree, n: Node, d: Node, nm: string)
    requires Movable(t, n, d, nm)
    ensures t.HasParent(n) && t.Move(n, d, nm).Valid()
  {
    MoveKeepsShape(t, n, d, nm);
    assert t.Lists(d);
    forall m | m in t.nodes
      ensures t.Move(n, d, nm).Hangs(m) && t.Move(n, d, nm).Lists(m)
    {
      MoveKeepsNode(t, n, d, nm, m);
      MoveKeepsList(t, n, d, nm, m);
    }
  }

  // ----- What every name denotes afterwards -----

  /** A new name denotes the new node, which has no entries yet; every other name denotes what it did. */
  lemma AddedEntry(t: Tree, d: Node, nm: string, n: Node, target: string, d': Node, nm': string)
    requires t.Valid() && d in t.live && d.kind.Dir? && t.Entry(d, nm) == null && n !in t.nodes
    requires d' in t.Add(d, nm, n, target).nodes
    ensures t.Add(d, nm, n, target).Entry(d', nm') ==
              if d' == n then null else if d' == d && nm' == nm then n else t.Entry(d', nm')
    ensures d' != n ==> t.Add(d, nm, n, target).nodes[d'].link == t.nodes[d'].link
    ensures t.Add(d, nm, n, target).nodes[n].link == target
  {
    assert t.root in t.nodes && d in t.nodes;
    hide Tree.Valid, Tree.Shaped, PlainObject.Set;
  }

  /** The removed name denotes nothing; every other name denotes what it did. */
  lemma RemovedEntry(t: Tree, d: Node, nm: string, d': Node, nm': string)
    requires t.Valid() && d in t.nodes && nm in t.nodes[d].contents && d' in t.nodes
    ensures t.Remove(d, nm).nodes.Keys == t.nodes.Keys
    ensures t.Remove(d, nm).Entry(d', nm') == if d' == d && nm' == nm then null else t.Entry(d', nm')
  {
    assert t.Lists(d) && t.ListsAs(d, nm);
    assert nm != "/" || d != t.root;
    hide Tree.Valid, Tree.Shaped, PlainObject.Delete;
  }

  /** The new name denotes the moved node and its old one nothing; every other name denotes what it did. */
  lemma MovedEntry(t: Tree, n: Node, d: Node, nm: string, d': Node, nm': string)
    requires Movable(t, n, d, nm) && d' in t.nodes && n in t.nodes
    ensures t.HasParent(n) && t.Move(n, d, nm).nodes.Keys == t.nodes.Keys
    ensures t.Move(n, d, nm).Entry(d', nm') ==
              if d' == d && nm' == nm then n
              else if d' == t.nodes[n].parent && nm' == t.nodes[n].name then null
              else t.Entry(d', nm')
  {
    assert t.Hangs(n) && t.HasParent(n) && t.Lists(t.nodes[n].parent) && t.Lists(d');
    assert t.nodes[n].name != "/" || t.nodes[n].parent != t.root;
    hide Tree.Valid, Tree.Shaped, Tree.Move;
    MovedKeys(t, n, d, nm);
    MovedRecord(t, n, d, nm, d');
  }

  // ----- A rename that throws half-way -----

  lemma UnlistedKeepsTree(t: Tree, d: Node, nm: string)
    requires t.Valid() && d in t.nodes && d.kind.Dir?
    ensures t.With(d, t.nodes[d].Unlisted(nm)).Valid()
  {
    var t' := t.With(d, t.nodes[d].Unlisted(nm));
    forall m | m in t.nodes
      ensures t'.HasParent(m)
    {
      assert t.HasParent(m);
    }
    hide Tree.Shaped, PlainObject.Delete, Tree.ListsAs;
    forall m | m in t.nodes
      ensures t'.Hangs(m)
    {
      assert t.Hangs(m);
    }
    forall m | m in t.nodes
      ensures t'.Lists(m)
    {
      assert t.Lists(m);
      forall k | k in t'.nodes[m].contents
        ensures t'.ListsAs(m, k)
      {
        assert t.ListsAs(m, k);
      }
    }
  }

  lemma AbortKeepsTree(t: Tree, n: Node, d: Node, nm: string)
    requires Movable(t, n, d, nm)
    ensures t.HasParent(n) && t.Aborted(n, d, nm).Valid()
  {
    assert t.Hangs(n) && t.HasParent(n) && t.Lists(t.nodes[n].parent);
    assert t.Lists(d);
    if nm in t.nodes[d].contents {
      assert t.ListsAs(d, nm);
      RemoveKeepsTree(t, d, nm);
    }
    hide Tree.Valid, Tree.Shaped;
    UnlistedKeepsTree(if nm in t.nodes[d].contents then t.Remove(d, nm) else t, t.nodes[n].parent, t.nodes[n].name);
  }

  // ----- When the directories' objects follow -----

  /** Adding keeps objects and index in agreement exactly if no inherited accessor takes the name. */
  lemma AddAgreesIff(t: Tree, d: Node, nm: string, n: Node, target: string)
    requires t.Agrees() && d in t.live && d.kind.Dir? && t.Entry(d, nm) == null && n !in t.nodes
    ensures d in t.nodes && (t.Add(d, nm, n, target).Agrees() <==> !t.nodes[d].listing.Trapped(nm))
    ensures t.nodes[d].listing.Trapped(nm) <==>
              t.nodes[d].listing.proto != null && nm in {"read", "write", "isFolder", "isDevice"}
  {
    AddKeepsTree(t, d, nm, n, target);
    assert d in t.nodes && t.Shows(d);
    var t' := t.Add(d, nm, n, target);
    SetMirrorsIff(t.nodes[d].listing, t.nodes[d].contents, nm, n);
    hide Tree.Valid, Mirrors, PlainObject.Set, PlainObject.Trapped;
    assert t'.Shows(d) <==> !t.nodes[d].listing.Trapped(nm);
    assert Mirrors(EMPTY, map[]) by {
      var none: map<string, Node> := map[];
      assert none - {PROTO} == none;
    }
    forall m | m in t'.nodes && m != d
      ensures t'.Shows(m)
    {
      assert m != n ==> t.Shows(m);
    }
  }

  lemma RemoveAgrees(t: Tree, d: Node, nm: string)
    requires t.Agrees() && d in t.nodes && nm in t.nodes[d].contents
    ensures t.Remove(d, nm).Agrees()
  {
    RemoveKeepsTree(t, d, nm);
    assert t.Shows(d);
    DeleteMirrors(t.nodes[d].listing, t.nodes[d].contents, nm);
    hide Tree.Valid, Mirrors, PlainObject.Delete;
    forall m | m in t.nodes
      ensures t.Remove(d, nm).Shows(m)
    {
      assert t.Shows(m);
    }
  }

  lemma MoveAgreesIff(t: Tree, n: Node, d: Node, nm: string)
    requires Movable(t, n, d, nm) && t.Agrees()
    ensures t.HasParent(n) && d in t.nodes
    ensures t.Move(n, d, nm).Agrees() <==> !t.nodes[d].listing.Trapped(nm)
  {
    MoveKeepsTree(t, n, d, nm);
    assert t.Hangs(n) && t.Shows(d);
    var t' := t.Move(n, d, nm);
    var p, name := t.nodes[n].parent, t.nodes[n].name;
    var kept := if d == p then t.nodes[d].Without(name) else t.nodes[d];
    DeleteMirrors(t.nodes[d].listing, t.nodes[d].contents, name);
    SetMirrorsIff(kept.listing, kept.contents, nm, n);
    assert kept.listing.Trapped(nm) == t.nodes[d].listing.Trapped(nm);
    MovedRecord(t, n, d, nm, d);
    hide Tree.Valid, Tree.Move, Mirrors, PlainObject.Set, PlainObject.Delete, PlainObject.Trapped;
    assert t'.Shows(d) <==> !t.nodes[d].listing.Trapped(nm);
    forall m | m in t.nodes && m != d
      ensures m in t'.nodes && t'.Shows(m)
    {
      assert t.Shows(m);
      MovedRecord(t, n, d, nm, m);
      DeleteMirrors(t.nodes[m].listing, t.nodes[m].contents, name);
    }
    MovedKeys(t, n, d, nm);
  }

  /** A move that throws loses the source from its directory's object, if it ever showed it there. */
  lemma AbortAgreesIff(t: Tree, n: Node, d: Node, nm: string)
    requires Movable(t, n, d, nm) && t.Agrees() && t.nodes[d].listing.Throws(nm)
    ensures t.HasParent(n) && (t.Aborted(n, d, nm).Agrees() <==> t.nodes[n].name == PROTO)
  {
    AbortKeepsTree(t, n, d, nm);
    var p, name := t.nodes[n].parent, t.nodes[n].name;
    assert t.Hangs(n) && t.Shows(d) && t.Shows(p) && nm !in t.nodes[d].contents;
    var t' := t.Aborted(n, d, nm);
    hide Tree.Valid;
    assert t'.Shows(p) <==> name == PROTO by {
      assert name !in t.nodes[p].listing.Delete(name).own;
      assert name == PROTO ==> t.nodes[p].listing.own - {name} == t.nodes[p].listing.own;
      assert name != PROTO ==> name in t.nodes[p].contents - {PROTO};
    }
    forall m | m in t.nodes && m != p
      ensures t'.Shows(m)
    {
      assert t.Shows(m);
    }
  }

  /** A directory's object has a property of its own for exactly the nodes indexed under it, "__proto__" aside. */
  lemma ReadsAsIndexed(t: Tree, d: Node, nm: string)
    requires t.Agrees() && d in t.live && d.kind.Dir?
    ensures d in t.nodes
    ensures nm in t.nodes[d].listing.own <==>
              nm != PROTO && exists n ::
                n in t.live && n in t.nodes && n != t.root && t.nodes[n].parent == d && t.nodes[n].name == nm
    ensures nm in t.nodes[d].listing.own ==> t.nodes[d].listing.own[nm] == t.Entry(d, nm) != null
    ensures t.nodes[d].listing.proto == null ==> PROTO !in t.nodes[d].contents
  {
    assert d in t.nodes && t.Lists(d) && t.Shows(d);
    hide Tree.Agrees;
    if nm in t.nodes[d].contents {
      assert t.ListsAs(d, nm);
    }
    if n :| n in t.live && n in t.nodes && n != t.root && t.nodes[n].parent == d && t.nodes[n].name == nm {
      assert t.Hangs(n);
    }
  }

  /** An empty directory looks empty unless "__proto__" was ever created in it. */
  lemma LooksEmptyIff(t: Tree, d: Node)
    requires t.Agrees() && d in t.nodes
    ensures !t.nodes[d].listing.Enumerates() <==> t.nodes[d].contents == map[] && t.nodes[d].listing.proto == null
  {
    assert t.Shows(d);
    var c := t.nodes[d].contents;
    if t.nodes[d].listing.own == map[] && c != map[] {
      var k :| k in c;
      assert k == PROTO || k in c - {PROTO};
    }
  }

  // ----- What undoes what -----

  /**
   Removing what was just added restores every older node, and the index, exactly if the name is not
   "__proto__" (or that was already set to this node), nor one an inherited setter took.
   */
  lemma RemoveUndoesAdd(t: Tree, d: Node, nm: string, n: Node, target: string)
    requires t.Agrees() && d in t.live && d.kind.Dir? && t.Entry(d, nm) == null && n !in t.nodes
    ensures d in t.nodes
    ensures var t', o := t.Add(d, nm, n, target), t.nodes[d].listing;
            && d in t'.nodes && nm in t'.nodes[d].contents && t'.nodes[d].contents[nm] == n
            && t'.Remove(d, nm).live == t.live
            && ((forall m :: m in t.nodes ==> m in t'.nodes && t'.Remove(d, nm).nodes[m] == t.nodes[m])
                <==> (nm == PROTO ==> o.proto == n) && !(o.Trapped(nm) && nm in SETTERS))
  {
    assert d in t.nodes && n !in t.live && t.Lists(d) && t.Shows(d);
    hide Tree.Shaped, Tree.Agrees;
    var c, o := t.nodes[d].contents, t.nodes[d].listing;
    assert c[nm := n] - {nm} == c;
    assert nm !in o.own;
    SetThenDelete(o, c, nm, n);
    hide PlainObject.Set, PlainObject.Delete, PlainObject.Trapped;
    assert t.Add(d, nm, n, target).Remove(d, nm).nodes[d].listing == o.Set(nm, n).Delete(nm);
  }

  lemma SetThenDelete(o: PlainObject, c: map<string, Node>, nm: string, n: Node)
    requires Mirrors(o, c) && nm !in c
    ensures o.Set(nm, n).Delete(nm) == o <==> (nm == PROTO ==> o.proto == n) && !(o.Trapped(nm) && nm in SETTERS)
  {
    assert o.own - {nm} == o.own;
    assert o.own[nm := n] - {nm} == o.own;
    if o.Trapped(nm) && nm in SETTERS {
      assert "mode" in o.Set(nm, n).Delete(nm).own && o.Set(nm, n).Delete(nm).own["mode"] == null;
      assert "mode" in o.own ==> o.own["mode"] != null;
    }
  }

  lemma MovedKeys(t: Tree, n: Node, d: Node, nm: string)
    requires n in t.nodes && t.HasParent(n) && d in t.nodes
    ensures t.Move(n, d, nm).nodes.Keys == t.nodes.Keys
    ensures nm !in t.nodes[d].contents ==> t.Move(n, d, nm).live == t.live
    ensures t.Move(n, d, nm).root == t.root
  {
    hide Tree.Valid, Tree.Shaped;
  }

  lemma MapBack(c: map<string, Node>, name: string, nm: string, n: Node)
    ensures nm !in c ==> c[nm := n] - {nm} == c
    ensures name in c && c[name] == n ==> (c - {name})[name := n] == c
    ensures nm !in c && name in c && c[name] == n ==> ((c - {name})[nm := n] - {nm})[name := n] == c
  {
  }

  /** After a move into a free place, the old place is free and the node may go back. */
  lemma MayMoveBack(t: Tree, n: Node, d: Node, nm: string)
    requires Movable(t, n, d, nm) && nm !in t.nodes[d].contents && nm != "/" && t.nodes[n].parent in t.live
    ensures t.HasParent(n) && n in t.nodes && d in t.nodes
    ensures var p, name, t' := t.nodes[n].parent, t.nodes[n].name, t.Move(n, d, nm);
            && d in t'.nodes && p in t'.nodes && n in t'.nodes && t'.HasParent(n) && t'.nodes[n].parent == d
            && t'.nodes[n].name == nm && t'.Entry(d, nm) == n && t'.Entry(p, name) == null && Movable(t', n, p, name)
            && name !in t'.nodes[p].contents && name in t.nodes[p].contents && t.nodes[p].contents[name] == n
  {
    MoveKeepsTree(t, n, d, nm);
    var p, name, t' := t.nodes[n].parent, t.nodes[n].name, t.Move(n, d, nm);
    assert t.Hangs(n) && t.Lists(p) && "/" !in t.nodes[t.root].contents;
    hide Tree.Valid, Tree.Move, Mirrors;
    MovedKeys(t, n, d, nm);
    MovedRecord(t, n, d, nm, d);
    MovedRecord(t, n, d, nm, p);
    MovedRecord(t, n, d, nm, n);
  }

  /** The object of a directory after `n` left it under `name`, entered it under `nm`, or both. */
  function Passed(o: PlainObject, left: bool, entered: bool, name: string, nm: string, n: Node): PlainObject {
    var l := if left then o.Delete(name) else o;
    if entered then l.Set(nm, n) else l
  }

  /** The object after `n` went there and back. */
  function Returned(o: PlainObject, home: bool, away: bool, name: string, nm: string, n: Node): PlainObject {
    Passed(Passed(o, home, away, name, nm, n), away, home, nm, name, n)
  }

  /** Entering and leaving again under `nm` leaves no trace. */
  predicate NoTrace(o: PlainObject, home: bool, name: string, nm: string, n: Node) {
    (nm == PROTO ==> o.proto == n) && (o.Trapped(nm) ==> home && name == "mode")
  }

  /** What left under `name` can come back under it. */
  predicate TakesBack(o: PlainObject, name: string) { o.proto != null ==> name !in SETTERS + GETTERS }

  lemma ReturnedIff(o: PlainObject, c: map<string, Node>, home: bool, away: bool, name: string, nm: string, n: Node)
    requires Mirrors(o, c)
    requires away ==> nm !in c && !o.Throws(nm)
    requires home ==> name in c && c[name] == n
    ensures Returned(o, home, away, name, nm, n) == o <==>
            (away ==> NoTrace(o, home, name, nm, n)) && (home ==> TakesBack(o, name))
  {
    var r := Returned(o, home, away, name, nm, n);
    if away && home {
      ReturnedSame(o, c, name, nm, n);
    } else if away {
      SetThenDelete(o, c, nm, n);
    } else if home {
      assert (o.own - {name})[name := n] == if name == PROTO then o.own[name := n] else o.own;
      assert name == PROTO ==> o.own - {name} == o.own;
      assert name in SETTERS + GETTERS && o.proto != null ==> name in o.own && name !in r.own;
    }
  }

  /** Renamed within one directory, and back. */
  lemma ReturnedSame(o: PlainObject, c: map<string, Node>, name: string, nm: string, n: Node)
    requires Mirrors(o, c) && nm !in c && !o.Throws(nm) && name in c && c[name] == n
    ensures Returned(o, true, true, name, nm, n) == o <==> NoTrace(o, true, name, nm, n) && TakesBack(o, name)
  {
    var r := Returned(o, true, true, name, nm, n);
    var o1 := o.Delete(name).Set(nm, n);
    var o2 := o1.Delete(nm);
    assert name !in o2.own || name == "mode";
    if nm == PROTO || name == PROTO {
      assert o.own - {PROTO} == o.own;
      assert o.own - {name} - {PROTO} == o.own - {name};
    }
    if o.Trapped(nm) {
      assert nm in SETTERS;
      if name == "mode" {
        assert r.own == o.own;
      } else {
        assert "mode" in r.own && r.own["mode"] == null;
        assert "mode" in o.own ==> o.own["mode"] != null;
      }
    } else if !TakesBack(o, name) {
      assert name in o.own && name !in r.own;
    } else if nm != PROTO {
      assert o2.own == o.own - {name};
      assert name != PROTO ==> r.own == o.own;
    }
  }

  /** `n` went from its own place to the free name `nm` of `d`, and can go back. */
  ghost predicate Returnable(t: Tree, n: Node, d: Node, nm: string) {
    && n in t.nodes && t.HasParent(n) && d in t.nodes && nm !in t.nodes[d].contents
    && var p, name, t' := t.nodes[n].parent, t.nodes[n].name, t.Move(n, d, nm);
       && n in t'.nodes && t'.HasParent(n) && p in t'.nodes && name !in t'.nodes[p].contents
       && t'.nodes[n].parent == d && t'.nodes[n].name == nm
       && name in t.nodes[p].contents && t.nodes[p].contents[name] == n
  }

  ghost function Back(t: Tree, n: Node, d: Node, nm: string): Tree
    requires Returnable(t, n, d, nm)
  {
    t.Move(n, d, nm).Move(n, t.nodes[n].parent, t.nodes[n].name)
  }

  lemma MovedBackRecord(t: Tree, n: Node, d: Node, nm: string, m: Node)
    requires Returnable(t, n, d, nm) && m in t.nodes
    ensures m in Back(t, n, d, nm).nodes
    ensures var i := t.nodes[m];
            Back(t, n, d, nm).nodes[m] ==
              i.(listing := Returned(i.listing, m == t.nodes[n].parent, m == d, t.nodes[n].name, nm, n))
  {
    var p, name, t' := t.nodes[n].parent, t.nodes[n].name, t.Move(n, d, nm);
    var i := t.nodes[m];
    hide Tree.Move, PlainObject.Set, PlainObject.Delete;
    MovedRecord(t, n, d, nm, m);
    MovedRecord(t', n, p, name, m);
    MapBack(i.contents, name, nm, n);
  }

  lemma MovedBackShape(t: Tree, n: Node, d: Node, nm: string)
    requires Returnable(t, n, d, nm)
    ensures var back := Back(t, n, d, nm); back.nodes.Keys == t.nodes.Keys && back.live == t.live && back.root == t.root
  {
    hide Tree.Move;
    MovedKeys(t, n, d, nm);
    MovedKeys(t.Move(n, d, nm), n, t.nodes[n].parent, t.nodes[n].name);
  }

  /** A move to the free name `nm` of `d` can be taken back without a trace in either directory's object. */
  ghost predicate Traceless(t: Tree, n: Node, d: Node, nm: string)
    requires n in t.nodes && t.HasParent(n) && d in t.nodes
  {
    var p, name := t.nodes[n].parent, t.nodes[n].name;
    NoTrace(t.nodes[d].listing, p == d, name, nm, n) && TakesBack(t.nodes[p].listing, name)
  }

  lemma MovedBackIff(t: Tree, n: Node, d: Node, nm: string)
    requires t.Agrees() && Returnable(t, n, d, nm) && !t.nodes[d].listing.Throws(nm)
    ensures Back(t, n, d, nm) == t <==> Traceless(t, n, d, nm)
  {
    MovedBackShape(t, n, d, nm);
    var back := Back(t, n, d, nm);
    var p, name := t.nodes[n].parent, t.nodes[n].name;
    assert t.Shows(d) && t.Shows(p);
    ReturnedIff(t.nodes[d].listing, t.nodes[d].contents, d == p, true, name, nm, n);
    ReturnedIff(t.nodes[p].listing, t.nodes[p].contents, true, p == d, name, nm, n);
    hide Back, Tree.Agrees, Mirrors, NoTrace, TakesBack, PlainObject.Set, PlainObject.Delete, PlainObject.Trapped;
    MovedBackRecord(t, n, d, nm, d);
    MovedBackRecord(t, n, d, nm, p);
    if Traceless(t, n, d, nm) {
      forall m | m in t.nodes
        ensures back.nodes[m] == t.nodes[m]
      {
        MovedBackRecord(t, n, d, nm, m);
      }
      assert back.nodes == t.nodes;
    }
  }

  /**
   Moving back to where it came from restores the tree, when the move took no other entry's place,
   exactly if neither name is one the objects' prototypes get in the way of.
   */
  lemma MoveBackRestoresIff(t: Tree, n: Node, d: Node, nm: string)
    requires t.Agrees() && Movable(t, n, d, nm) && nm !in t.nodes[d].contents && nm != "/"
    requires t.nodes[n].parent in t.live && !t.nodes[d].listing.Throws(nm)
    ensures t.HasParent(n) && n in t.nodes && d in t.nodes
    ensures var p, name, t' := t.nodes[n].parent, t.nodes[n].name, t.Move(n, d, nm);
            && n in t'.nodes && t'.HasParent(n) && p in t'.nodes && Movable(t', n, p, name)
            && (t'.Move(n, p, name) == t <==> Traceless(t, n, d, nm))
  {
    MayMoveBack(t, n, d, nm);
    MovedBackIff(t, n, d, nm);
  }
}
