/**
 When the tree stays a tree: creating and removing keep every node connected to the root; a
 rename does so exactly when the target directory does not lie below the node being moved.
 */
module Rooted {
  import opened DirTree

  /** The ancestor `k` steps up. */
  ghost function Up(t: Tree, n: Node, k: nat): Node
    requires t.Shaped() && n in t.nodes
    ensures Up(t, n, k) in t.nodes
  {
    if k == 0 then n
    else
      assert t.HasParent(n);
      Up(t, t.nodes[n].parent, k - 1)
  }

  ghost predicate Connected(t: Tree, n: Node)
    requires t.Shaped() && n in t.nodes
  {
    exists k: nat :: Up(t, n, k) == t.root
  }

  /** From every indexed node the parent links climb to the root. */
  ghost predicate AllConnected(t: Tree)
    requires t.Shaped()
  {
    forall n :: n in t.live && n in t.nodes ==> Connected(t, n)
  }

  ghost predicate Below(t: Tree, d: Node, n: Node)
    requires t.Shaped() && d in t.nodes
  {
    exists k: nat :: Up(t, d, k) == n
  }

  lemma {:induction false} UpSnoc(t: Tree, n: Node, k: nat)
    requires t.Shaped() && n in t.nodes
    ensures t.HasParent(Up(t, n, k)) && Up(t, n, k + 1) == t.nodes[Up(t, n, k)].parent
  {
    assert t.HasParent(n);
    if k > 0 {
      UpSnoc(t, t.nodes[n].parent, k - 1);
    }
  }

  /** Ancestors are the same in two trees as long as the climb meets no node whose parent differs. */
  lemma {:induction false} UpAgrees(t: Tree, t': Tree, n: Node, k: nat, except: Node)
    requires t.Shaped() && t'.Shaped() && n in t.nodes && n in t'.nodes
    requires forall m :: m in t.nodes && m != except ==> m in t'.nodes && t'.nodes[m].parent == t.nodes[m].parent
    requires forall j :: 0 <= j < k ==> Up(t, n, j) != except
    ensures Up(t', n, k) == Up(t, n, k)
  {
    if k > 0 {
      assert t.HasParent(n);
      assert Up(t, n, 0) != except;
      forall j | 0 <= j < k - 1
        ensures Up(t, t.nodes[n].parent, j) != except
      {
        assert Up(t, n, j + 1) != except;
      }
      UpAgrees(t, t', t.nodes[n].parent, k - 1, except);
    }
  }

  lemma AddKeepsConnected(t: Tree, d: Node, nm: string, n: Node, target: string)
    requires t.Valid() && AllConnected(t) && d in t.live && d.kind.Dir? && t.Entry(d, nm) == null && n !in t.nodes
    ensures t.Add(d, nm, n, target).Shaped() && AllConnected(t.Add(d, nm, n, target))
  {
    AddKeepsTree(t, d, nm, n, target);
    var t' := t.Add(d, nm, n, target);
    forall m | m in t'.live && m in t'.nodes
      ensures Connected(t', m)
    {
      var from := if m == n then d else m;
      var k: nat :| Up(t, from, k) == t.root;
      forall j | 0 <= j < k
        ensures Up(t, from, j) != n
      {
        assert Up(t, from, j) in t.nodes;
      }
      UpAgrees(t, t', from, k, n);
      assert m == n ==> Up(t', n, k + 1) == t.root;
    }
  }

  lemma RemoveKeepsConnected(t: Tree, d: Node, nm: string)
    requires t.Valid() && AllConnected(t) && d in t.nodes && nm in t.nodes[d].contents
    ensures t.Remove(d, nm).Shaped() && AllConnected(t.Remove(d, nm))
  {
    RemoveKeepsTree(t, d, nm);
    var t' := t.Remove(d, nm);
    forall m | m in t'.live && m in t'.nodes
      ensures Connected(t', m)
    {
      assert Connected(t, m);
      var k: nat :| Up(t, m, k) == t.root;
      SameParents(t, t', m, k);
    }
  }

  lemma AbortKeepsConnected(t: Tree, n: Node, d: Node, nm: string)
    requires Movable(t, n, d, nm) && AllConnected(t)
    ensures t.HasParent(n) && t.Aborted(n, d, nm).Shaped() && AllConnected(t.Aborted(n, d, nm))
  {
    AbortKeepsTree(t, n, d, nm);
    var t' := t.Aborted(n, d, nm);
    hide Movable, Tree.Valid;
    forall m | m in t'.live && m in t'.nodes
      ensures Connected(t', m)
    {
      assert Connected(t, m);
      var k: nat :| Up(t, m, k) == t.root;
      SameParents(t, t', m, k);
    }
  }

  lemma {:induction false} SameParents(t: Tree, t': Tree, n: Node, k: nat)
    requires t.Shaped() && t'.Shaped() && n in t.nodes && n in t'.nodes
    requires forall m :: m in t.nodes ==> m in t'.nodes && t'.nodes[m].parent == t.nodes[m].parent
    ensures Up(t', n, k) == Up(t, n, k)
  {
    if k > 0 {
      assert t.HasParent(n);
      SameParents(t, t', t.nodes[n].parent, k - 1);
    }
  }

  lemma MoveParents(t: Tree, n: Node, d: Node, nm: string)
    requires Movable(t, n, d, nm)
    ensures t.HasParent(n) && t.Move(n, d, nm).Valid() && n in t.nodes && d in t.nodes
    ensures var t' := t.Move(n, d, nm);
            && t'.root == t.root && n in t'.nodes && t'.nodes[n].parent == d && n in t'.live
            && (forall m :: m in t.nodes <==> m in t'.nodes)
            && (forall m :: m in t.nodes && m != n ==> t'.nodes[m].parent == t.nodes[m].parent)
            && (forall m :: m in t'.live ==> m in t.live)
  {
    MoveKeepsTree(t, n, d, nm);
    if nm in t.nodes[d].contents {
      assert t.Lists(d) && t.ListsAs(d, nm);
    }
  }

  /** Climbing from `m` in the moved tree: as before until `n`, then on through `d`. */
  lemma {:induction false} MovedClimb(t: Tree, t': Tree, n: Node, d: Node, m: Node, k: nat, kd: nat)
    requires t.Shaped() && t'.Shaped() && n in t.nodes && d in t.nodes && m in t.nodes
    requires t'.root == t.root && (forall x :: x in t.nodes <==> x in t'.nodes) && t'.nodes[n].parent == d
    requires forall x :: x in t.nodes && x != n ==> t'.nodes[x].parent == t.nodes[x].parent
    requires Up(t, m, k) == t.root && Up(t', d, kd) == t.root
    ensures Connected(t', m)
  {
    if m == n {
      assert Up(t', n, kd + 1) == t.root;
    } else if k == 0 {
      assert Up(t', m, 0) == t.root;
    } else {
      assert t.HasParent(m);
      MovedClimb(t, t', n, d, t.nodes[m].parent, k - 1, kd);
      var j: nat :| Up(t', t.nodes[m].parent, j) == t'.root;
      assert Up(t', m, j + 1) == t.root;
    }
  }

  /** From a node on the loop that a move below itself closes, no climb ends at the root. */
  lemma {:induction false} LoopNeverEnds(t: Tree, t': Tree, n: Node, d: Node, below: nat, at: nat, k: nat)
    requires t.Valid() && t'.Shaped() && n in t.nodes && d in t.nodes && n != t.root
    requires t'.root == t.root && (forall x :: x in t.nodes <==> x in t'.nodes) && t'.nodes[n].parent == d
    requires forall x :: x in t.nodes && x != n ==> t'.nodes[x].parent == t.nodes[x].parent
    requires Up(t, d, below) == n && at <= below
    ensures Up(t', Up(t, d, at), k) != t.root
    decreases k
  {
    var x := Up(t, d, at);
    RootStaysRoot(t, d, at, below);
    if k > 0 {
      UpSnoc(t, d, at);
      assert t'.HasParent(x);
      if x == n {
        LoopNeverEnds(t, t', n, d, below, 0, k - 1);
      } else {
        LoopNeverEnds(t, t', n, d, below, at + 1, k - 1);
      }
    }
  }

  /** Above the root there is only the root. */
  lemma {:induction false} RootStaysRoot(t: Tree, d: Node, at: nat, k: nat)
    requires t.Valid() && d in t.nodes && at <= k
    ensures Up(t, d, at) == t.root ==> Up(t, d, k) == t.root
    decreases k
  {
    if at < k {
      RootStaysRoot(t, d, at, k - 1);
      UpSnoc(t, d, k - 1);
    }
  }

  /**
   A rename keeps every node connected to the root if and only if the target directory is not
   the moved node or below it. `rename` itself compares path text, so this is for its caller to know.
   */
  lemma MoveKeepsConnectedIff(t: Tree, n: Node, d: Node, nm: string)
    requires Movable(t, n, d, nm) && AllConnected(t)
    ensures d in t.nodes && t.HasParent(n) && t.Move(n, d, nm).Shaped()
    ensures AllConnected(t.Move(n, d, nm)) <==> !Below(t, d, n)
  {
    MoveParents(t, n, d, nm);
    var t' := t.Move(n, d, nm);
    if k: nat :| Up(t, d, k) == n {
      forall j: nat
        ensures Up(t', n, j) != t'.root
      {
        LoopNeverEnds(t, t', n, d, k, k, j);
      }
      assert !Connected(t', n);
    } else {
      assert Connected(t, d);
      var kd: nat :| Up(t, d, kd) == t.root;
      UpAgrees(t, t', d, kd, n);
      forall m | m in t'.live && m in t'.nodes
        ensures Connected(t', m)
      {
        assert Connected(t, m);
        var k: nat :| Up(t, m, k) == t.root;
        MovedClimb(t, t', n, d, m, k, kd);
      }
    }
  }
}
