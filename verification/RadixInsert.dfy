// Insertion and deletion of one route, on the links of the whole tree.

module RadixInserts {
  import opened RadixTree
  import opened RadixNodes
  import opened RadixEdits
  import opened RadixSteps
  import opened RadixGrowth

  lemma NewShape(path: RPath, leaf: RTree, v: Key, d: nat, k: nat, t: RadixNode, tt: RadixNode, m: Mask)
    requires 0 < k <= |path| && d < |v|
    ensures var f, q := Plug(path[k..], leaf), NewPath(path, leaf, v, d, k, t);
      var g := Pair(t, tt, v, m, d, f);
      && Plug(path[..k], f) == Plug(path, leaf)
      && g.Node? && g.n == t && g.anns == [] && |g.pre| == d && Child(g, !v[d]) == f
      && Plug(path[..k], WithChild(g.(anns := Handed(f, |path[k - 1].pre|, d)), !v[d], Kept(f, d)))
         == Plug(q, Leaf(v, [NewEntry(tt, m)]))
  {
    var f, q := Plug(path[k..], leaf), NewPath(path, leaf, v, d, k, t);
    PlugSplit(path, k, leaf);
    PlugSnoc(path[..k], q[k], Leaf(v, [NewEntry(tt, m)]));
  }

  // Splices the pair in above the subtree below the first k nodes of v's path.
  method SpliceNew(v: Key, m: Mask, t: RadixNode, tt: RadixNode, p: RadixNode, x: RadixNode, d: nat, top: RadixNode,
                   ghost w: nat,
                   ghost k: nat, ghost path: RPath, ghost leaf: RTree, ghost repr: set<RadixNode>)
    requires Sub(Plug(path, leaf), top, repr) && path != [] && path[0].n == top && 0 < k <= |path|
    requires d < |v| && t !in repr && tt !in repr && t != tt
    requires var f := Plug(path[k..], leaf);
      TreeOk(f, w, |path[k - 1].pre|) && |path[k - 1].pre| < d && x == RootOf(f)
    requires p == path[k - 1].n && p.b == |path[k - 1].pre| && p.b < |v| && v[p.b] == path[k - 1].right
    modifies repr, t, tt
    ensures Sub(Plug(NewPath(path, leaf, v, d, k, t), Leaf(v, [NewEntry(tt, m)])), top, repr + {t, tt})
  {
    ghost var f := Plug(path[k..], leaf);
    NewShape(path, leaf, v, d, k, t, tt, m);
    ghost var pk := path[..k];
    assert pk[|pk| - 1] == path[k - 1] && Bit(pk, -1) == |path[k - 1].pre|;
    EditRepr(pk, f, top, repr);
    SpliceAt(x, p, v[p.b], t, tt, v, m, d, pk, f, top, repr);
    PromoteAt(t, x, !v[d], w, pk, Pair(t, tt, v, m, d, f), top, repr + {t, tt});
  }

  lemma EditRepr(path: RPath, f: RTree, top: RadixNode, repr: set<RadixNode>)
    requires Sub(Plug(path, f), top, repr) && path != [] && path[0].n == top
    ensures path[|path| - 1].n in repr && RootOf(f) != null && RootOf(f) in repr && top in repr
  {
    FocusLinks(path, f, top, repr);
    SubRoot(f, Above(path, |path|, top), repr);
    InSpine(path, |path| - 1);
    InSpine(path, 0);
  }

  lemma PlacedFlag(v: Key, tt: RadixNode, m: Mask, up: int)
    ensures Flagged(Leaf(v, [NewEntry(tt, m)]), 0, m.Net? && m.len <= up) == Leaf(v, [Placed(tt, m, up)])
  {
  }

  // Lifts the route of a pair just spliced in.
  method LiftNew(v: Key, m: Mask, t: RadixNode, tt: RadixNode, top: RadixNode, ghost w: nat, ghost q: RPath,
                 ghost repr: set<RadixNode>)
    requires Sub(Plug(q, Leaf(v, [NewEntry(tt, m)])), top, repr) && q != [] && q[0].n == top && t == q[|q| - 1].n
    requires PathOk(q, {}, w, -1)
    requires m.Net? && Home(q, m.len) < |q| ==> forall a :: a in q[Home(q, m.len)].anns ==> a.len != m.len
    modifies repr
    ensures Sub(Plug(Lift(q, Item(v, m, false, tt)), Leaf(v, [Placed(tt, m, |q[|q| - 1].pre|)])), top, repr)
  {
    PlacedFlag(v, tt, m, |q[|q| - 1].pre|);
    LiftRoute(tt, t, m, top, 0, q, Leaf(v, [NewEntry(tt, m)]), {}, w, repr);
  }

  // What rn_addroute does with a key that is not in the tree.
  method InsertNew(v: Key, m: Mask, t: RadixNode, tt: RadixNode, h: RadixNode, d: nat, top: RadixNode, ghost w: nat,
                   ghost path: RPath, ghost leaf: RTree, ghost repr: set<RadixNode>) returns (ghost k: nat)
    requires Sub(Plug(path, leaf), top, repr) && path != [] && path[0].n == top && path[0].pre == []
    requires leaf.Leaf? && h == RootOf(leaf) && AtLeaf(path, leaf.key, leaf.chain, v, w)
    requires FirstDiff(v, leaf.key, d) && d < w
    requires m.Net? ==> m.len <= w && Clear(v, m.len)
    requires forall y :: y in SibItems(path) + Items(leaf) ==> y.key != v
    requires t !in repr && tt !in repr && t != tt
    modifies repr, t, tt
    ensures CutAt(path, d, k)
    ensures Sub(NewTree(path, leaf, v, d, k, t, tt, m), top, repr + {t, tt})
  {
    var p, x;
    p, x, k := FindNew(v, h, d, top, w, path, leaf, repr);
    SpliceNew(v, m, t, tt, p, x, d, top, w, k, path, leaf, repr);
    NewReady(path, leaf, v, w, d, k, t, tt, m);
    LiftNew(v, m, t, tt, top, w, NewPath(path, leaf, v, d, k, t), repr + {t, tt});
  }

  lemma NewReady(path: RPath, leaf: RTree, v: Key, w: nat, d: nat, k: nat, t: RadixNode, tt: RadixNode, m: Mask)
    requires leaf.Leaf? && AtLeaf(path, leaf.key, leaf.chain, v, w) && FirstDiff(v, leaf.key, d) && d < w
    requires CutAt(path, d, k) && (m.Net? ==> m.len <= w && Clear(v, m.len))
    requires forall y :: y in SibItems(path) + Items(leaf) ==> y.key != v
    ensures var q := NewPath(path, leaf, v, d, k, t);
      && q != [] && q[0].n == path[0].n && q[|q| - 1].n == t && |q[|q| - 1].pre| == d && PathOk(q, {}, w, -1)
      && (m.Net? && Home(q, m.len) < |q| ==> forall a :: a in q[Home(q, m.len)].anns ==> a.len != m.len)
  {
    NewLeafOk(path, leaf, v, w, d, k, t, tt, m);
  }

  ghost function NewTree(path: RPath, leaf: RTree, v: Key, d: nat, k: nat, t: RadixNode, tt: RadixNode, m: Mask): RTree
    requires 0 < k <= |path| && d < |v|
  {
    Plug(Lift(NewPath(path, leaf, v, d, k, t), Item(v, m, false, tt)), Leaf(v, [Placed(tt, m, d)]))
  }

  method FindNew(v: Key, h: RadixNode, d: nat, top: RadixNode, ghost w: nat,
                 ghost path: RPath, ghost leaf: RTree, ghost repr: set<RadixNode>)
    returns (p: RadixNode, x: RadixNode, ghost k: nat)
    requires Sub(Plug(path, leaf), top, repr) && path != [] && path[0].n == top && path[0].pre == []
    requires leaf.Leaf? && h == RootOf(leaf) && AtLeaf(path, leaf.key, leaf.chain, v, w)
    requires FirstDiff(v, leaf.key, d) && d < w
    ensures CutAt(path, d, k) && Sub(Plug(path, leaf), top, repr)
    ensures var f := Plug(path[k..], leaf);
      TreeOk(f, w, |path[k - 1].pre|) && x == RootOf(f)
    ensures p == path[k - 1].n && p.b == |path[k - 1].pre| && p.b < |v| && v[p.b] == path[k - 1].right
  {
    FindReady(v, d, top, w, path, leaf, repr);
    p, x, k := FindAbove(v, d, top, path, h);
    if k < |path| { DiffOffPath(path, leaf.key, leaf.chain, v, w, d, k); }
    CutParts(v, d, k, w, path, leaf);
  }

  lemma FindReady(v: Key, d: nat, top: RadixNode, w: nat, path: RPath, leaf: RTree, repr: set<RadixNode>)
    requires Sub(Plug(path, leaf), top, repr) && path != [] && path[0].n == top && path[0].pre == []
    requires leaf.Leaf? && AtLeaf(path, leaf.key, leaf.chain, v, w) && FirstDiff(v, leaf.key, d) && d < w
    ensures RootOf(leaf) != null && Turns(path, RootOf(leaf), v) && RootOf(leaf).b < 0 && d > 0
  {
    FocusLinks(path, leaf, top, repr);
    SubLeaf(leaf, Above(path, |path|, top), repr);
    SpineTurns(path, RootOf(leaf), top, v);
    DiffOffPath(path, leaf.key, leaf.chain, v, w, d, 0);
  }

  lemma CutParts(v: Key, d: nat, k: nat, w: nat, path: RPath, leaf: RTree)
    requires leaf.Leaf? && AtLeaf(path, leaf.key, leaf.chain, v, w) && FirstDiff(v, leaf.key, d) && d < w
    requires CutAt(path, d, k)
    ensures var f := Plug(path[k..], leaf);
      TreeOk(f, w, |path[k - 1].pre|) && RootOf(f) == Below(path, k - 1, RootOf(leaf))
  {
    CutOk(path, leaf, v, w, d, k);
    assert Bit(path[..k], -1) == |path[k - 1].pre|;
    if k < |path| { assert path[k..][0] == path[k]; }
  }

  // ---- another mask for a key in the tree ------------------------------------------------------

  // The comparison of rn_addroute for its chains: a missing mask goes first, a longer one next
  // (for contiguous masks rn_refines and rn_lexobetter say the same as the indices: RadixMasks.Precedes).
  predicate Before(m: Mask, other: Mask) {
    m == Host || (other.Net? && m.len > other.len)
  }

  // The place of mask m in a chain: in front of tt and behind t.  dup: the mask is there already.
  method FindDup(h: RadixNode, m: Mask, ghost w: nat, ghost up: int, ghost key: Key, ghost chain: seq<REntry>,
                 ghost p: RadixNode)
    returns (dup: bool, t: RadixNode, tt: RadixNode?, ghost i: nat)
    requires ChainWired(key, chain, p) && LeafOk(key, chain, w, up) && h == chain[0].id && (m.Net? ==> m.len <= w)
    ensures dup <==> exists k :: 0 <= k < |chain| && chain[k].mask == m
    ensures !dup ==> i <= |chain| && (forall k :: 0 <= k < i ==> Rank(chain[k].mask, w) > Rank(m, w))
    ensures !dup && i < |chain| ==> Rank(chain[i].mask, w) < Rank(m, w)
    ensures !dup ==> t == chain[if i == 0 then 0 else i - 1].id && tt == (if i < |chain| then chain[i].id else null)
  {
    t, tt, i := h, h, 0;
    while tt != null && tt.mask != m && !Before(m, tt.mask)
      invariant i <= |chain| && tt == (if i < |chain| then chain[i].id else null)
      invariant t == chain[if i == 0 then 0 else i - 1].id
      invariant i < |chain| ==> EntryWired(key, chain, i, p) && EntryOk(key, chain[i], up)
      invariant forall k :: 0 <= k < i ==> Rank(chain[k].mask, w) > Rank(m, w)
      decreases |chain| - i
    {
      assert Rank(chain[i].mask, w) > Rank(m, w);
      t, tt, i := tt, tt.duped, i + 1;
      assert i < |chain| ==> EntryOk(key, chain[i], up);
    }
    dup := tt != null && tt.mask == m;
    if dup {
      assert chain[i].mask == m;
    } else {
      RankApart(key, chain, m, w, up, i);
    }
  }

  lemma RankApart(key: Key, chain: seq<REntry>, m: Mask, w: nat, up: int, i: nat)
    requires LeafOk(key, chain, w, up) && i <= |chain|
    requires forall k :: 0 <= k < i ==> Rank(chain[k].mask, w) > Rank(m, w)
    requires i < |chain| ==> chain[i].mask != m && Before(m, chain[i].mask)
    requires m.Net? ==> m.len <= w
    ensures forall k :: 0 <= k < |chain| ==> chain[k].mask != m
    ensures i < |chain| ==> Rank(chain[i].mask, w) < Rank(m, w)
  {
    forall k | 0 <= k < |chain| ensures EntryOk(key, chain[k], up) && chain[k].mask != m {
      assert i < k ==> Rank(chain[i].mask, w) > Rank(chain[k].mask, w);
    }
  }

  ghost function DupLeaf(leaf: RTree, i: nat, e: REntry): RTree
    requires leaf.Leaf? && i <= |leaf.chain|
  {
    Leaf(leaf.key, leaf.chain[..i] + [e] + leaf.chain[i..])
  }

  method PutFirst(h: RadixNode, nodes: RadixNode, m: Mask, top: RadixNode, right: bool, ghost path: RPath,
                  ghost leaf: RTree, ghost repr: set<RadixNode>)
    requires Sub(Plug(path, leaf), top, repr) && path != [] && path[0].n == top && leaf.Leaf? && h == RootOf(leaf)
    requires right == path[|path| - 1].right && nodes !in repr
    modifies repr, nodes
    ensures Sub(Plug(path, DupLeaf(leaf, 0, NewEntry(nodes, m))), top, repr + {nodes})
  {
    ghost var leaf', p := DupLeaf(leaf, 0, NewEntry(nodes, m)), path[..|path| - 1];
    assert leaf'.chain == [NewEntry(nodes, m)] + leaf.chain;
    PutObjs(leaf, 0, NewEntry(nodes, m));
    EditReady(path, leaf, leaf', top, repr, {nodes});
    EditRepr(path, leaf, top, repr);
    ghost var g := Fill(path[|path| - 1], leaf);
    InsertHead(h, nodes, m, right, g, leaf, Above(p, |p|, top), repr);
    Reform(p, g, WithChild(g, right, leaf'), top, repr, {nodes});
  }

  lemma PutObjs(leaf: RTree, i: nat, e: REntry)
    requires leaf.Leaf? && i <= |leaf.chain|
    ensures Objs(DupLeaf(leaf, i, e)) <= Objs(leaf) + {e.id}
  {
    var c := leaf.chain[..i] + [e] + leaf.chain[i..];
    forall k | 0 <= k < |c| ensures c[k].id in Objs(leaf) + {e.id} {
      assert c[k] == if k < i then leaf.chain[k] else if k == i then e else leaf.chain[k - 1];
    }
  }

  method PutBehind(t: RadixNode, nodes: RadixNode, m: Mask, top: RadixNode, ghost i: nat, ghost path: RPath,
                   ghost leaf: RTree, ghost repr: set<RadixNode>)
    requires Sub(Plug(path, leaf), top, repr) && path != [] && path[0].n == top && leaf.Leaf?
    requires 0 < i <= |leaf.chain| && t == leaf.chain[i - 1].id && nodes !in repr
    modifies repr, nodes
    ensures Sub(Plug(path, DupLeaf(leaf, i, NewEntry(nodes, m))), top, repr + {nodes})
  {
    ghost var leaf' := DupLeaf(leaf, i, NewEntry(nodes, m));
    ghost var p := Above(path, |path|, top);
    FocusLinks(path, leaf, top, repr);
    EditRepr(path, leaf, top, repr);
    SubLeaf(leaf, p, repr);
    ChainPutDistinct(leaf.chain, i, NewEntry(nodes, m));
    PutAfter(t, nodes, m, p, leaf.key, leaf.chain, i);
    assert Sub(leaf', p, repr + {nodes});
    Reform(path, leaf, leaf', top, repr, {nodes});
  }

  lemma DupFlag(leaf: RTree, i: nat, n: RadixNode, m: Mask, up: int)
    requires leaf.Leaf? && i <= |leaf.chain|
    ensures var l := DupLeaf(leaf, i, NewEntry(n, m));
      i < |l.chain| && l.chain[i] == NewEntry(n, m)
          && Flagged(l, i, m.Net? && m.len <= up) == DupLeaf(leaf, i, Placed(n, m, up))
  {
  }

  // What rn_addroute does with a key that is in the tree: links the slot into the chain, at the
  // head or behind t, and lifts the route.
  method InsertSame(h: RadixNode, tt: RadixNode?, t: RadixNode, nodes: RadixNode, m: Mask, top: RadixNode, right: bool,
                    ghost i: nat, ghost w: nat, ghost path: RPath, ghost leaf: RTree, ghost repr: set<RadixNode>)
    requires Sub(Plug(path, leaf), top, repr) && path != [] && path[0].n == top && leaf.Leaf? && h == RootOf(leaf)
    requires i <= |leaf.chain| && t == leaf.chain[if i == 0 then 0 else i - 1].id
    requires tt == (if i < |leaf.chain| then leaf.chain[i].id else null)
    requires h.p == path[|path| - 1].n && right == path[|path| - 1].right && nodes !in repr && ChainDistinct(leaf.chain)
    requires PathOk(path, Items(leaf), w, -1)
    requires m.Net? && Home(path, m.len) < |path| ==> forall a :: a in path[Home(path, m.len)].anns ==> a.len != m.len
    modifies repr, nodes
    ensures Sub(Plug(Lift(path, Item(leaf.key, m, false, nodes)),
        DupLeaf(leaf, i, Placed(nodes, m, |path[|path| - 1].pre|))),
                top, repr + {nodes})
  {
    var up := h.p;
    HeadIsFirst(leaf, i);
    if tt == h {
      PutFirst(h, nodes, m, top, right, path, leaf, repr);
    } else {
      PutBehind(t, nodes, m, top, i, path, leaf, repr);
    }
    DupFlag(leaf, i, nodes, m, |path[|path| - 1].pre|);
    LiftRoute(nodes, up, m, top, i, path, DupLeaf(leaf, i, NewEntry(nodes, m)), Items(leaf), w, repr + {nodes});
  }

  lemma HeadIsFirst(leaf: RTree, i: nat)
    requires leaf.Leaf? && ChainDistinct(leaf.chain) && leaf.chain != [] && i <= |leaf.chain|
    ensures (if i < |leaf.chain| then leaf.chain[i].id else null) == RootOf(leaf) <==> i == 0
  {
  }
}
