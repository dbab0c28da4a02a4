/**
 The hash index as values: the table's heads, each node's `nameNext`, and the chains they spell.
 */
module HashChains {
  import opened DirTree

  // ----- The hash: JavaScript's signed 32-bit arithmetic -----

  const TWO32 := 0x1_0000_0000

  function ToInt32(x: int): (r: int)
    ensures -0x8000_0000 <= r < 0x8000_0000 && (r - x) % TWO32 == 0
  {
    var m := x % TWO32;
    if m < 0x8000_0000 then m else m - TWO32
  }

  function HashFold(name: string): int {
    if name == "" then 0
    else
      var h := HashFold(name[..|name| - 1]);
      ToInt32(ToInt32(h * 32) - h + name[|name| - 1] as int)
  }

  /** The hash of a name as a polynomial in 31 over its code units, the first with the highest power. */
  function Polynomial(name: string): nat {
    if name == "" then 0 else 31 * Polynomial(name[..|name| - 1]) + name[|name| - 1] as nat
  }

  /** Shifting and subtracting in signed 32-bit steps computes that polynomial modulo 2^32. */
  lemma {:induction false} HashIsPolynomial(name: string)
    ensures (HashFold(name) - Polynomial(name)) % TWO32 == 0
  {
    if name != "" {
      var init, c := name[..|name| - 1], name[|name| - 1] as int;
      HashIsPolynomial(init);
      var h, p := HashFold(init), Polynomial(init);
      var x := ToInt32(h * 32);
      var y := ToInt32(x - h + c);
      hide *;
      SameClass(y, x - h + c, h * 32 - h + c);
      assert (x - h + c) - (h * 32 - h + c) == x - h * 32;
      Times31(h, p, c);
      SameClass(y, h * 32 - h + c, 31 * p + c);
    }
  }

  lemma SameClass(a: int, b: int, c: int)
    requires (a - b) % TWO32 == 0 && (b - c) % TWO32 == 0
    ensures (a - c) % TWO32 == 0
  {
  }

  lemma Times31(h: int, p: int, c: int)
    requires (h - p) % TWO32 == 0
    ensures ((h * 32 - h + c) - (31 * p + c)) % TWO32 == 0
  {
    var k := (h - p) / TWO32;
    assert (h * 32 - h + c) - (31 * p + c) == 31 * k * TWO32;
  }

  function HashName(parentId: nat, name: string, size: nat): (h: nat)
    requires size > 0
    ensures h < size
  {
    (parentId + HashFold(name)) % TWO32 % size
  }

  // ----- Chains -----

  datatype Index = Index(heads: seq<Node?>, next: map<Node, Node?>, chains: seq<seq<Node>>)
  {
    ghost function Slot(t: Tree, n: Node): (h: nat)
      requires heads != [] && n in t.nodes
      ensures h < |heads|
    {
      HashName(t.nodes[n].parent.id, t.nodes[n].name, |heads|)
    }

    /** The head and the links of bucket `h` run through exactly `chain`, without repeating. */
    ghost predicate Spells(h: nat, chain: seq<Node>)
      requires h < |heads|
    {
      && heads[h] == At(chain, 0)
      && (forall i :: 0 <= i < |chain| ==> chain[i] in next && next[chain[i]] == At(chain, i + 1))
      && (forall i, j :: 0 <= i < j < |chain| ==> chain[i] != chain[j])
    }

    ghost predicate ChainOk(t: Tree, h: nat)
      requires h < |heads| == |chains|
    {
      && Spells(h, chains[h])
      && forall n :: n in chains[h] ==> n in t.live && n in t.nodes && Slot(t, n) == h
    }

    ghost predicate Filed(t: Tree, n: Node)
      requires |heads| == |chains| > 0
    {
      n in t.nodes && n in chains[Slot(t, n)]
    }

    /** Each indexed node sits once, in the one chain its parent and name hash to, and no other node does. */
    ghost predicate Valid(t: Tree) {
      && |heads| == |chains| > 0
      && next.Keys == t.nodes.Keys
      && (forall h {:trigger ChainOk(t, h)} :: 0 <= h < |chains| ==> ChainOk(t, h))
      && (forall n {:trigger Filed(t, n)} :: n in t.live ==> Filed(t, n))
    }
  }

  /** The node at a position of a chain; null past its end. */
  ghost function At(chain: seq<Node>, i: nat): Node? {
    if i < |chain| then chain[i] else null
  }

  ghost function PushFront(ix: Index, h: nat, n: Node): Index
    requires h < |ix.heads| == |ix.chains|
  {
    Index(ix.heads[h := n], ix.next[n := ix.heads[h]], ix.chains[h := [n] + ix.chains[h]])
  }

  lemma PushSpells(ix: Index, h: nat, n: Node)
    requires h < |ix.heads| == |ix.chains| && ix.Spells(h, ix.chains[h]) && n !in ix.chains[h]
    ensures PushFront(ix, h, n).Spells(h, [n] + ix.chains[h])
  {
    var chain := [n] + ix.chains[h];
    var ix' := PushFront(ix, h, n);
    forall i | 0 <= i < |chain|
      ensures chain[i] in ix'.next && ix'.next[chain[i]] == At(chain, i + 1)
    {
      if i > 0 {
        assert chain[i] == ix.chains[h][i - 1] && ix.next[ix.chains[h][i - 1]] == At(ix.chains[h], i);
      }
    }
  }

  lemma PushKeepsIndex(ix: Index, t: Tree, n: Node)
    requires ix.Valid(t) && n in t.nodes && n !in t.live
    ensures PushFront(ix, ix.Slot(t, n), n).Valid(t.(live := t.live + {n}))
  {
    hide HashName;
    var hash := ix.Slot(t, n);
    var ix' := PushFront(ix, hash, n);
    var t' := t.(live := t.live + {n});
    forall h | 0 <= h < |ix'.chains|
      ensures ix'.ChainOk(t', h)
    {
      assert ix.ChainOk(t, h);
      hide Index.Valid;
      if h == hash {
        PushSpells(ix, h, n);
      }
    }
    forall m | m in t'.live
      ensures ix'.Filed(t', m)
    {
      hide Index.ChainOk;
      assert m != n ==> ix.Filed(t, m);
    }
  }

  /** `ix'` is `ix` with the links of one chain redirected around `n`. */
  ghost predicate Spliced(ix: Index, ix': Index, t: Tree, n: Node)
    requires ix.heads != [] && n in t.nodes
  {
    var hash := ix.Slot(t, n);
    && |ix'.heads| == |ix.heads| == |ix.chains| == |ix'.chains| && ix'.next.Keys == ix.next.Keys
    && (forall h :: 0 <= h < |ix.heads| && h != hash ==> ix'.heads[h] == ix.heads[h] && ix'.chains[h] == ix.chains[h])
    && (forall m :: m in ix.next && m !in ix.chains[hash] ==> ix'.next[m] == ix.next[m])
    && ix'.Spells(hash, ix'.chains[hash])
    && (forall m :: m in ix'.chains[hash] ==> m in ix.chains[hash] && m != n)
    && (forall m :: m in ix.chains[hash] && m != n ==> m in ix'.chains[hash])
  }

  /** Taking out the node at place `k` of a chain: the head or the link before it now skips it. */
  ghost function Redirect(ix: Index, hash: nat, k: nat): Index
    requires hash < |ix.heads| == |ix.chains| && k < |ix.chains[hash]| && ix.chains[hash][k] in ix.next
  {
    var chain := ix.chains[hash];
    var after := ix.next[chain[k]];
    var shorter := ix.(chains := ix.chains[hash := chain[..k] + chain[k + 1..]]);
    if k == 0 then shorter.(heads := ix.heads[hash := after])
    else shorter.(next := ix.next[chain[k - 1] := after])
  }

  lemma RedirectFields(ix: Index, hash: nat, k: nat)
    requires hash < |ix.heads| == |ix.chains| && k < |ix.chains[hash]| && ix.Spells(hash, ix.chains[hash])
    ensures ix.chains[hash][k] in ix.next
    ensures var ix', chain := Redirect(ix, hash, k), ix.chains[hash];
            && ix'.heads == (if k == 0 then ix.heads[hash := ix.next[chain[k]]] else ix.heads)
            && ix'.next == (if k == 0 then ix.next else ix.next[chain[k - 1] := ix.next[chain[k]]])
  {
  }

  /** A position of a chain, its link, and when it is the head. */
  lemma SpelledAt(ix: Index, h: nat, chain: seq<Node>, i: nat)
    requires h < |ix.heads| && ix.Spells(h, chain) && i < |chain|
    ensures ix.heads[h] == chain[0] && (chain[i] == chain[0] <==> i == 0)
    ensures chain[i] in ix.next && ix.next[chain[i]] == At(chain, i + 1)
    ensures forall j :: 0 <= j < |chain| && chain[j] == chain[i] ==> j == i
  {
  }

  lemma WithoutOne(chain: seq<Node>, k: nat)
    requires k < |chain| && forall i, j :: 0 <= i < j < |chain| ==> chain[i] != chain[j]
    ensures var rest := chain[..k] + chain[k + 1..];
            forall i, j :: 0 <= i < j < |rest| ==> rest[i] != rest[j]
  {
    var rest := chain[..k] + chain[k + 1..];
    forall i, j | 0 <= i < j < |rest|
      ensures rest[i] != rest[j]
    {
      assert rest[i] == chain[if i < k then i else i + 1] && rest[j] == chain[if j < k then j else j + 1];
    }
  }

  lemma RedirectSpells(ix: Index, hash: nat, k: nat)
    requires hash < |ix.heads| == |ix.chains| && k < |ix.chains[hash]| && ix.Spells(hash, ix.chains[hash])
    ensures ix.chains[hash][k] in ix.next
    ensures Redirect(ix, hash, k).Spells(hash, Redirect(ix, hash, k).chains[hash])
    ensures Redirect(ix, hash, k).next.Keys == ix.next.Keys
  {
    var chain := ix.chains[hash];
    var rest := chain[..k] + chain[k + 1..];
    var ix' := Redirect(ix, hash, k);
    assert ix.next[chain[k]] == At(chain, k + 1);
    assert k > 0 ==> ix.next[chain[k - 1]] == chain[k];
    forall i | 0 <= i < |rest|
      ensures rest[i] in ix'.next && ix'.next[rest[i]] == At(rest, i + 1)
    {
      var c := if i < k then i else i + 1;
      assert rest[i] == chain[c];
      assert ix.next[chain[c]] == At(chain, c + 1);
    }
    WithoutOne(chain, k);
  }

  lemma RestOfChain(chain: seq<Node>, k: nat)
    requires k < |chain| && forall i, j :: 0 <= i < j < |chain| ==> chain[i] != chain[j]
    ensures var rest := chain[..k] + chain[k + 1..];
            && (forall m :: m in rest ==> m in chain && m != chain[k])
            && (forall m :: m in chain && m != chain[k] ==> m in rest)
  {
    var rest := chain[..k] + chain[k + 1..];
    forall m | m in chain && m != chain[k]
      ensures m in rest
    {
      var i :| 0 <= i < |chain| && chain[i] == m;
      assert m == if i < k then rest[i] else rest[i - 1];
    }
  }

  lemma RedirectSplices(ix: Index, t: Tree, n: Node, hash: nat, k: nat)
    requires ix.Valid(t) && n in t.nodes && hash == ix.Slot(t, n)
    requires k < |ix.chains[hash]| && ix.chains[hash][k] == n && n in ix.next
    ensures Spliced(ix, Redirect(ix, hash, k), t, n)
  {
    hide HashName;
    assert ix.ChainOk(t, hash);
    RedirectSpells(ix, hash, k);
    RestOfChain(ix.chains[hash], k);
  }

  /** A chain whose head and links are as before is spelled as before. */
  lemma SameSpells(ix: Index, ix': Index, h: nat, chain: seq<Node>)
    requires h < |ix.heads| && h < |ix'.heads| && ix.Spells(h, chain) && ix'.heads[h] == ix.heads[h]
    requires forall m :: m in chain ==> m in ix.next && m in ix'.next && ix'.next[m] == ix.next[m]
    ensures ix'.Spells(h, chain)
  {
    forall i | 0 <= i < |chain|
      ensures chain[i] in ix'.next && ix'.next[chain[i]] == At(chain, i + 1)
    {
      assert chain[i] in chain;
    }
  }

  lemma LinkedChain(ix: Index, h: nat, chain: seq<Node>, m: Node)
    requires h < |ix.heads| && ix.Spells(h, chain) && m in chain
    ensures m in ix.next
  {
  }

  lemma SpliceKeepsOther(ix: Index, ix': Index, t: Tree, n: Node, h: nat)
    requires ix.Valid(t) && n in t.nodes && Spliced(ix, ix', t, n) && h < |ix.chains| && h != ix.Slot(t, n)
    ensures ix'.ChainOk(t.(live := t.live - {n}), h)
  {
    var hash, t' := ix.Slot(t, n), t.(live := t.live - {n});
    assert ix.ChainOk(t, h) && ix.ChainOk(t, hash);
    hide HashName, Index.Spells, Index.Valid;
    forall m | m in ix.chains[h]
      ensures m in t'.live && m in t'.nodes && ix'.Slot(t', m) == h
      ensures m in ix.next && m in ix'.next && ix'.next[m] == ix.next[m]
    {
      assert m !in ix.chains[hash];
      LinkedChain(ix, h, ix.chains[h], m);
    }
    SameSpells(ix, ix', h, ix.chains[h]);
  }

  lemma SpliceKeepsChain(ix: Index, ix': Index, t: Tree, n: Node, h: nat)
    requires ix.Valid(t) && n in t.nodes && Spliced(ix, ix', t, n) && h < |ix.chains|
    ensures ix'.ChainOk(t.(live := t.live - {n}), h)
  {
    var hash, t' := ix.Slot(t, n), t.(live := t.live - {n});
    if h != hash {
      SpliceKeepsOther(ix, ix', t, n, h);
    } else {
      assert ix.ChainOk(t, h);
      hide HashName, Index.Spells, Index.Valid;
      forall m | m in ix'.chains[h]
        ensures m in t'.live && m in t'.nodes && ix'.Slot(t', m) == h
      {
        assert m in ix.chains[h] && m != n;
      }
    }
  }

  lemma SpliceKeepsIndex(ix: Index, ix': Index, t: Tree, n: Node)
    requires ix.Valid(t) && n in t.live && n in t.nodes && Spliced(ix, ix', t, n)
    ensures ix'.Valid(t.(live := t.live - {n}))
  {
    hide HashName;
    var t' := t.(live := t.live - {n});
    forall h | 0 <= h < |ix'.chains|
      ensures ix'.ChainOk(t', h)
    {
      SpliceKeepsChain(ix, ix', t, n, h);
    }
    forall m | m in t'.live
      ensures ix'.Filed(t', m)
    {
      assert ix.Filed(t, m);
    }
  }

  /** A node's record may change at will, as long as an indexed node keeps its parent and name. */
  lemma RecordKeepsIndex(ix: Index, t: Tree, n: Node, info: Info)
    requires ix.Valid(t) && n in t.nodes
    requires n in t.live ==> info.parent == t.nodes[n].parent && info.name == t.nodes[n].name
    ensures ix.Valid(t.(nodes := t.nodes[n := info]))
  {
    hide HashName;
    var t' := t.(nodes := t.nodes[n := info]);
    forall h | 0 <= h < |ix.chains|
      ensures ix.ChainOk(t', h)
    {
      assert ix.ChainOk(t, h);
    }
    forall m | m in t'.live
      ensures ix.Filed(t', m)
    {
      assert ix.Filed(t, m);
    }
  }

  lemma NewNodeKeepsIndex(ix: Index, t: Tree, n: Node, info: Info)
    requires ix.Valid(t) && n !in t.nodes
    ensures ix.(next := ix.next[n := null]).Valid(t.(nodes := t.nodes[n := info])) && n !in t.live
  {
    hide HashName;
    var ix' := ix.(next := ix.next[n := null]);
    var t' := t.(nodes := t.nodes[n := info]);
    forall h | 0 <= h < |ix'.chains|
      ensures ix'.ChainOk(t', h)
    {
      assert ix.ChainOk(t, h);
    }
    forall m | m in t'.live
      ensures ix'.Filed(t', m)
    {
      assert ix.Filed(t, m);
    }
    assert ix.Filed(t, n) || n !in t.live;
  }
}
