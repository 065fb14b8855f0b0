// The deletion of one route, on the links of the whole tree (rn_delete).

module RadixDeletes {
  import opened RadixTree
  import opened RadixNodes
  import opened RadixEdits
  import opened RadixSteps
  import opened RadixGrowth

  ghost function CutLeaf(leaf: RTree, i: nat): RTree
    requires leaf.Leaf? && i < |leaf.chain|
  {
    Leaf(leaf.key, leaf.chain[..i] + leaf.chain[i + 1..])
  }

  lemma CutObjs(leaf: RTree, i: nat)
    requires leaf.Leaf? && i < |leaf.chain|
    ensures Objs(CutLeaf(leaf, i)) <= Objs(leaf)
    ensures ChainDistinct(leaf.chain) ==> leaf.chain[i].id !in Objs(CutLeaf(leaf, i))
  {
    var c := leaf.chain[..i] + leaf.chain[i + 1..];
    assert forall k :: 0 <= k < |c| ==> c[k] == if k < i then leaf.chain[k] else leaf.chain[k + 1];
  }

  // The entry in front of tt in the chain.
  method FindBefore(h: RadixNode, tt: RadixNode, ghost i: nat, ghost key: Key, ghost chain: seq<REntry>,
                    ghost p: RadixNode)
    returns (q: RadixNode)
    requires ChainWired(key, chain, p) && ChainDistinct(chain) && h == chain[0].id
    requires 0 < i < |chain| && tt == chain[i].id
    ensures q == chain[i - 1].id
  {
    q := h;
    ghost var k := 0;
    assert EntryWired(key, chain, k, p);
    while q.duped != null && q.duped != tt
      invariant k < i && q == chain[k].id && EntryWired(key, chain, k, p)
      decreases i - k
    {
      q, k := q.duped, k + 1;
      assert EntryWired(key, chain, k, p);
    }
  }

  // Links entry i, the object tt, out of a chain that has more; x is the head that stays.
  method CutEntry(tt: RadixNode, h: RadixNode, n: RadixNode, right: bool, top: RadixNode,
                  ghost i: nat, ghost path: RPath, ghost leaf: RTree, ghost objs: set<RadixNode>) returns (x: RadixNode)
    requires Sub(Plug(path, leaf), top, objs) && path != [] && path[0].n == top && leaf.Leaf? && h == RootOf(leaf)
    requires i < |leaf.chain| && |leaf.chain| > 1 && tt == leaf.chain[i].id
    requires n == path[|path| - 1].n && right == path[|path| - 1].right
    modifies objs
    ensures Sub(Plug(path, CutLeaf(leaf, i)), top, objs) && x == leaf.chain[if i == 0 then 1 else 0].id
  {
    ghost var p, q := Above(path, |path|, top), path[..|path| - 1];
    FocusLinks(path, leaf, top, objs);
    SubLeaf(leaf, p, objs);
    CutObjs(leaf, i);
    if tt == h {
      ghost var g := Fill(path[|path| - 1], leaf);
      EditReady(path, leaf, CutLeaf(leaf, i), top, objs, {});
      assert CutLeaf(leaf, i).chain == leaf.chain[1..];
      x := CutHead(tt, n, right, g, leaf, Above(q, |q|, top), objs);
      Reform(q, g, WithChild(g, right, CutLeaf(leaf, i)), top, objs, {});
    } else {
      x := h;
      var before := FindBefore(h, tt, i, leaf.key, leaf.chain, p);
      CutAfter(before, tt, i, leaf, p, objs);
      Reform(path, leaf, CutLeaf(leaf, i), top, objs, {});
    }
  }

  // Takes the leaf at the end of the path out and the node t above it; x, the other child of t,
  // goes up and gets the annotations of t that t's parent may not carry.
  method DropLeaf(t: RadixNode, n: RadixNode, right: bool, x: RadixNode, top: RadixNode, ghost w: nat,
                  ghost p: RPath, ghost fr: Frame<RadixNode>, ghost leaf: RTree, ghost objs: set<RadixNode>)
    requires Sub(Plug(p + [fr], leaf), top, objs) && p != [] && p[0].n == top
    requires t == fr.n && n == p[|p| - 1].n && right == p[|p| - 1].right && x == RootOf(fr.sib)
    requires TreeOk(fr.sib, w, |fr.pre|) && Bit(p, -1) < |fr.pre|
    requires fr.sib.Leaf? ==> fr.anns == Select(fr.sib.chain, Bit(p, -1), |fr.pre|)
    modifies objs
    ensures Sub(Plug(p, Merged(fr.sib, fr.anns, Bit(p, -1))), top, objs)
  {
    hide Wired, TreeOk, Sub, Around, Select, Distinct;
    PlugSnoc(p, fr, leaf);
    NodeList(p, Fill(fr, leaf), top, objs);
    var list := t.mklist;
    SpliceOutAt(n, right, x, top, p, fr, leaf, objs);
    DemoteAt(x, list, |fr.pre|, w, p, fr.sib, top, objs);
  }

  // Splices out the node at the end of the path.
  method SpliceOutAt(n: RadixNode, right: bool, x: RadixNode, ghost top: RadixNode,
                     ghost p: RPath, ghost fr: Frame<RadixNode>, ghost leaf: RTree, ghost objs: set<RadixNode>)
    requires Sub(Plug(p, Fill(fr, leaf)), top, objs) && p != [] && p[0].n == top
    requires n == p[|p| - 1].n && right == p[|p| - 1].right && x == RootOf(fr.sib)
    modifies objs
    ensures Sub(Plug(p, fr.sib), top, objs)
  {
    hide Wired, Sub, Around, Distinct;
    ghost var f, q := Fill(fr, leaf), p[..|p| - 1];
    EditReady(p, f, fr.sib, top, objs, {});
    ghost var g := Fill(p[|p| - 1], f);
    SpliceOut(n, right, x, !fr.right, g, Above(q, |q|, top), objs);
    Reform(q, g, WithChild(g, right, fr.sib), top, objs, {});
    assert objs + {} == objs;
  }

  lemma NodeList(p: RPath, f: RTree, top: RadixNode, objs: set<RadixNode>)
    requires Sub(Plug(p, f), top, objs) && p != [] && p[0].n == top && f.Node?
    ensures f.n.mklist == f.anns
  {
    FocusLinks(p, f, top, objs);
  }

  method DemoteAt(x: RadixNode, list: seq<Ann<RadixNode>>, ghost c: nat, ghost w: nat, ghost p: RPath, ghost f: RTree,
                  ghost top: RadixNode, ghost objs: set<RadixNode>)
    requires Sub(Plug(p, f), top, objs) && p != [] && p[0].n == top && x == RootOf(f)
    requires TreeOk(f, w, c) && Bit(p, -1) < c && (f.Leaf? ==> list == Select(f.chain, Bit(p, -1), c))
    modifies objs
    ensures Sub(Plug(p, Merged(f, list, Bit(p, -1))), top, objs)
  {
    FocusLinks(p, f, top, objs);
    MergedObjs(f, list, Bit(p, -1));
    Demote(x, list, Bit(p, -1), c, w, f, Above(p, |p|, top), objs);
    Refocus(p, Merged(f, list, Bit(p, -1)), top, objs);
  }

  // ---- moving an internal node to another slot -------------------------------------------------

  lemma {:induction false} Locate(t: RTree, n: RadixNode) returns (q: RPath, f: RTree)
    requires n in Internals(t)
    ensures t == Plug(q, f) && f.Node? && f.n == n && (q == [] ==> t.n == n) && (q != [] ==> q[0].n == t.n)
  {
    if t.n == n {
      q, f := [], t;
    } else {
      var right := n in Internals(t.r);
      var fr := Frame(t.n, t.pre, t.anns, right, if right then t.l else t.r);
      q, f := Locate(if right then t.r else t.l, n);
      q := [fr] + q;
      assert q[1..] == q[1..];
    }
  }

  lemma ReslotValue(q: RPath, f: RTree, t: RadixNode, w: nat)
    requires f.Node?
    ensures var n, n' := Plug(q, f), Plug(q, Reslot(f, t));
      Items(n') == Items(n) && (TreeOk(n', w, -1) <==> TreeOk(n, w, -1))
  {
    PlugItems(q, f);
    PlugItems(q, Reslot(f, t));
    PlugOk(q, f, w, -1);
    PlugOk(q, Reslot(f, t), w, -1);
  }

  lemma ReslotObjs(q: RPath, f: RTree, t: RadixNode)
    requires f.Node? && Distinct(Plug(q, f))
    ensures var n, n' := Plug(q, f), Plug(q, Reslot(f, t));
      Internals(n') == Internals(n) - {f.n} + {t} && Objs(n') == Objs(n) - {f.n} + {t}
  {
    ghost var rest, inner := SpineObjs(q) + SibObjs(q), Objs(f.l) + Objs(f.r);
    PlugObjs(q, f);
    PlugObjs(q, Reslot(f, t));
    PlugDistinct(q, f);
    assert f.n !in rest && f.n !in inner;
    PlugInternals(q, f);
    PlugInternals(q, Reslot(f, t));
    PathInternalsObjs(q);
    TreeObjs(f.l);
    TreeObjs(f.r);
  }

  lemma {:induction false} PathInternalsObjs(q: RPath)
    ensures PathInternals(q) <= SpineObjs(q) + SibObjs(q)
  {
    if q != [] {
      PathInternalsObjs(q[1..]);
      SpineCons(q);
      TreeObjs(q[0].sib);
    }
  }

  lemma ReslotReady(q: RPath, f: RTree, t: RadixNode, top: RadixNode, objs: set<RadixNode>)
    requires Sub(Plug(q, f), top, objs) && q != [] && q[0].n == top && f.Node? && t !in objs
    ensures var p, fr := q[..|q| - 1], q[|q| - 1];
      var g := Fill(fr, f);
      && g.Node? && g.n == fr.n && Child(g, fr.right) == f
      && Plug(q, Reslot(f, t)) == Plug(p, WithChild(g, fr.right, Reslot(f, t)))
      && Around(p, RootOf(g), top, objs) && Sub(g, Above(p, |p|, top), objs + {t}) && Above(p, |p|, top) != t
      && Objs(g) !! SpineObjs(p) + SibObjs(p) && Objs(WithChild(g, fr.right, Reslot(f, t))) <= Objs(g) + {t}
      && t !in Objs(g) && g.n in objs && (if p == [] then g.n == top else p[0].n == top)
  {
    EditReady(q, f, Reslot(f, t), top, objs, {t});
  }

  // Copies the internal node x of the tree to the slot t, which is not in it.
  method ReslotAt(x: RadixNode, t: RadixNode, top: RadixNode, ghost w: nat, ghost n: RTree, ghost objs: set<RadixNode>)
    returns (ghost n': RTree)
    requires Sub(n, top, objs) && n.Node? && n.n == top && x in Internals(n) && x != top && t !in objs
    modifies objs, t
    ensures Sub(n', top, objs + {t}) && n'.Node? && n'.n == top && n'.pre == n.pre
    ensures Items(n') == Items(n) && (TreeOk(n', w, -1) <==> TreeOk(n, w, -1))
    ensures Internals(n') == Internals(n) - {x} + {t} && Objs(n') == Objs(n) - {x} + {t}
  {
    ghost var q, f := Locate(n, x);
    ReslotValue(q, f, t, w);
    ReslotObjs(q, f, t);
    SideOf(q, f, top, objs);
    ReslotReady(q, f, t, top, objs);
    var up := x.p;
    var right := up.l != x;
    ghost var p := q[..|q| - 1];
    ghost var g := Fill(q[|q| - 1], f);
    MoveSlot(up, right, x, t, g, Above(p, |p|, top), objs + {t});
    n' := Plug(q, Reslot(f, t));
    Reform(p, g, WithChild(g, right, Reslot(f, t)), top, objs, {t});
  }

  // ---- one route ---------------------------------------------------------------------------------

  function ItemAt(leaf: RTree, i: nat): Item<RadixNode>
    requires leaf.Leaf? && i < |leaf.chain|
  {
    Item(leaf.key, leaf.chain[i].mask, leaf.chain[i].root, leaf.chain[i].id)
  }

  // Takes the annotation of entry i, the object tt, off the list it was lifted to.
  method Unlist(tt: RadixNode, t: RadixNode, top: RadixNode, ghost i: nat, ghost w: nat,
                ghost path: RPath, ghost leaf: RTree, ghost objs: set<RadixNode>)
    requires Sub(Plug(path, leaf), top, objs) && path != [] && path[0].n == top && t == path[|path| - 1].n
    requires leaf.Leaf? && AtLeaf(path, leaf.key, leaf.chain, leaf.key, w)
    requires i < |leaf.chain| && tt == leaf.chain[i].id
    modifies objs
    ensures Sub(Plug(Unlift(path, ItemAt(leaf, i)), leaf), top, objs)
  {
    ghost var x := ItemAt(leaf, i);
    FocusLinks(path, leaf, top, objs);
    assert EntryWired(leaf.key, leaf.chain, i, Above(path, |path|, top))
        && EntryOk(leaf.key, leaf.chain[i], Bit(path, -1));
    if tt.mask == Host || !tt.lifted {
      if x.mask.Net? { HomeEnd(path, Items(leaf), w, -1, x.mask.len); }
      return;
    }
    assert x in Items(leaf) by { assert leaf.chain[i] in leaf.chain; }
    AnnotationThere(path, Items(leaf), x, w);
    Unannotate(t, Ann(tt.mask.len, tt), top, path, leaf, Items(leaf), w, objs);
  }

  // Deletes entry i, the object tt, of a chain that has more; x is the head that stays.
  method RemoveOne(tt: RadixNode, h: RadixNode, n: RadixNode, right: bool, top: RadixNode, ghost i: nat, ghost w: nat,
                   ghost path: RPath, ghost leaf: RTree, ghost objs: set<RadixNode>)
    returns (x: RadixNode, ghost t: RTree)
    requires Sub(Plug(path, leaf), top, objs) && path != [] && path[0].n == top && path[0].pre == []
    requires leaf.Leaf? && h == RootOf(leaf) && AtLeaf(path, leaf.key, leaf.chain, leaf.key, w)
    requires i < |leaf.chain| && tt == leaf.chain[i].id && |leaf.chain| > 1
    requires n == path[|path| - 1].n && right == path[|path| - 1].right
    modifies objs
    ensures Sub(t, top, objs) && t.Node? && t.n == top && t.pre == [] && TreeOk(t, w, -1)
    ensures x == leaf.chain[if i == 0 then 1 else 0].id
    ensures Items(t) == SibItems(path) + Items(leaf) - {ItemAt(leaf, i)}
    ensures Internals(t) == Internals(Plug(path, leaf)) && Objs(t) <= Objs(Plug(path, leaf)) - {tt}
  {
    hide TreeOk, PathOk, LeafOk, AllItemsOk, Wired, Distinct;
    ghost var e := ItemAt(leaf, i);
    ghost var q := Unlift(path, e);
    t := Plug(q, CutLeaf(leaf, i));
    CutLeafOk(path, leaf, w, i);
    OneObjs(path, leaf, i, top, objs);
    Unlist(tt, n, top, i, w, path, leaf, objs);
    x := CutEntry(tt, h, n, right, top, i, q, leaf, objs);
  }

  lemma OneObjs(path: RPath, leaf: RTree, i: nat, top: RadixNode, objs: set<RadixNode>)
    requires Sub(Plug(path, leaf), top, objs) && path != [] && path[0].n == top && leaf.Leaf? && i < |leaf.chain|
    ensures var q := Unlift(path, ItemAt(leaf, i));
      var t := Plug(q, CutLeaf(leaf, i));
      && t.Node? && t.n == top && t.pre == path[0].pre && q[0].n == top
      && q[|q| - 1].n == path[|path| - 1].n && q[|q| - 1].right == path[|path| - 1].right
      && Internals(t) == Internals(Plug(path, leaf)) && Objs(t) <= Objs(Plug(path, leaf)) - {leaf.chain[i].id}
  {
    hide Wired, Around, RootOf, SibItems, Sub, SpineObjs, SibObjs, Items;
    var q := Unlift(path, ItemAt(leaf, i));
    assert Objs(CutLeaf(leaf, i)) <= Objs(leaf) - {leaf.chain[i].id} && leaf.chain[i].id in Objs(leaf)
        && leaf.chain[i].id !in SpineObjs(path) + SibObjs(path) by {
      FocusLinks(path, leaf, top, objs);
      SideOf(path, leaf, top, objs);
      CutObjs(leaf, i);
    }
    PlugObjs(path, leaf);
    UnliftObjs(path, ItemAt(leaf, i));
    PlugObjs(q, CutLeaf(leaf, i));
    assert Internals(Plug(q, CutLeaf(leaf, i))) == Internals(Plug(path, leaf)) by {
      PlugInternals(path, leaf);
      PlugInternals(q, CutLeaf(leaf, i));
      LiftInternals(path, ItemAt(leaf, i));
    }
  }

  lemma UnliftObjs(path: RPath, x: Item<RadixNode>)
    ensures var q := Unlift(path, x); SpineObjs(q) == SpineObjs(path) && SibObjs(q) == SibObjs(path)
  {
    var q := Unlift(path, x);
    assert forall k :: 0 <= k < |q| ==> q[k].n == path[k].n && q[k].sib == path[k].sib;
    SpineSame(path, q);
  }

  lemma {:induction false} SpineSame(path: RPath, q: RPath)
    requires |q| == |path| && forall k :: 0 <= k < |q| ==> q[k].n == path[k].n && q[k].sib == path[k].sib
    ensures SpineObjs(q) == SpineObjs(path) && SibObjs(q) == SibObjs(path) && PathInternals(q) == PathInternals(path)
  {
    if path != [] {
      SpineSame(path[1..], q[1..]);
      SpineCons(path);
      SpineCons(q);
    }
  }

  lemma SubActive(n: RTree, top: RadixNode, objs: set<RadixNode>)
    requires Sub(n, top, objs)
    ensures forall m :: m in Internals(n) ==> m.active
  {
    ActiveInternals(n, top);
  }

  // Both nodes of a deleted pair go out of use.
  method Release(tt: RadixNode, t: RadixNode, ghost n: RTree, ghost top: RadixNode, ghost objs: set<RadixNode>)
    requires Sub(n, top, objs) && tt !in Objs(n) && t !in Objs(n)
    modifies tt, t
    ensures Sub(n, top, Objs(n)) && !tt.active && !t.active
  {
    tt.active := false;
    t.active := false;
  }

  ghost predicate Shaped(n: RTree, top: RadixNode, w: nat) {
    n.Node? && n.n == top && n.pre == [] && TreeOk(n, w, -1)
  }

  // The slot that is to take over from the internal node twin: that of entry y, if twin is in use.
  ghost predicate SpareSlot(spare: set<RadixNode>, twin: RadixNode, y: RadixNode, ns: set<RadixNode>,
                            objs: set<RadixNode>, top: RadixNode) {
    if twin in ns then twin != top && y.twin != null && y.twin !in objs && spare == {y.twin}
    else twin !in objs && spare == {}
  }

  // Deletes entry i, the object tt, of a chain that has more.  If the internal node of its pair is
  // in use, that of the entry y takes over, so that nothing in the tree refers to the pair.
  method RemovePair(tt: RadixNode, h: RadixNode, up: RadixNode, right: bool, top: RadixNode, ghost twin: RadixNode,
                    ghost spare: set<RadixNode>,
                    ghost i: nat, ghost w: nat, ghost path: RPath, ghost leaf: RTree, ghost objs: set<RadixNode>)
    returns (ghost n: RTree)
    requires Sub(Plug(path, leaf), top, objs) && path != [] && path[0].n == top && path[0].pre == []
    requires leaf.Leaf? && h == RootOf(leaf) && AtLeaf(path, leaf.key, leaf.chain, leaf.key, w)
    requires i < |leaf.chain| && tt == leaf.chain[i].id && |leaf.chain| > 1
    requires up == path[|path| - 1].n && right == path[|path| - 1].right
    requires tt.twin == twin && SpareSlot(spare, twin, leaf.chain[if i == 0 then 1 else 0].id,
        Internals(Plug(path, leaf)), objs, top)
    requires objs == Objs(Plug(path, leaf)) && (twin.active <==> twin in Internals(Plug(path, leaf)))
    modifies objs, twin, spare
    ensures Sub(n, top, Objs(n)) && Shaped(n, top, w) && tt !in Objs(n) && twin !in Objs(n) && !tt.active
        && !twin.active
    ensures Objs(n) <= objs + spare && Internals(n) == Internals(Plug(path, leaf)) - {twin} + spare
    ensures Items(n) == SibItems(path) + Items(leaf) - {ItemAt(leaf, i)}
  {
    hide TreeOk, Sub, AtLeaf, SibItems, Items, Plug;
    assert tt in objs && (twin in Internals(Plug(path, leaf)) ==> twin in objs) by { EntryIn(path, leaf, i); }
    var x;
    x, n := RemoveOne(tt, h, up, right, top, i, w, path, leaf, objs);
    var t := tt.twin;
    SubActive(n, top, objs);
    ghost var all := objs;
    if t.active {
      n := ReslotAt(t, x.twin, top, w, n, objs);
      all := objs + {x.twin};
    }
    Release(tt, t, n, top, all);
  }

  lemma EntryIn(path: RPath, leaf: RTree, i: nat)
    requires leaf.Leaf? && i < |leaf.chain|
    ensures leaf.chain[i].id in Objs(Plug(path, leaf)) && Internals(Plug(path, leaf)) <= Objs(Plug(path, leaf))
  {
    PlugObjs(path, leaf);
    assert leaf.chain[i].id in Objs(leaf);
    TreeObjs(Plug(path, leaf));
  }

  // Deletes the only entry of the leaf, and with it the node above.
  method RemoveLast(tt: RadixNode, top: RadixNode, ghost w: nat,
                    ghost p: RPath, ghost fr: Frame<RadixNode>, ghost leaf: RTree, ghost objs: set<RadixNode>)
    returns (ghost n: RTree)
    requires Sub(Plug(p + [fr], leaf), top, objs) && p != [] && p[0].n == top && p[0].pre == []
    requires leaf.Leaf? && AtLeaf(p + [fr], leaf.key, leaf.chain, leaf.key, w)
    requires |leaf.chain| == 1 && tt == leaf.chain[0].id
    modifies objs
    ensures Sub(n, top, objs) && n.Node? && n.n == top && n.pre == [] && TreeOk(n, w, -1)
    ensures Items(n) == SibItems(p + [fr]) + Items(leaf) - {ItemAt(leaf, 0)}
    ensures Internals(n) == Internals(Plug(p + [fr], leaf)) - {fr.n}
    ensures Objs(n) <= Objs(Plug(p + [fr], leaf)) - {fr.n, tt}
  {
    ghost var e := ItemAt(leaf, 0);
    ghost var q := Unlift(p + [fr], e);
    ghost var p', fr' := q[..|p|], q[|p|];
    LastValue(p, fr, leaf, w, top, objs);
    SideOf(p + [fr], leaf, top, objs);
    var t := tt.p;
    Unlist(tt, t, top, 0, w, p + [fr], leaf, objs);
    assert q == p' + [fr'];
    n := Plug(p', Merged(fr'.sib, fr'.anns, Bit(p, -1)));
    TakeOut(tt, t, top, w, p', fr', leaf, objs);
  }

  method TakeOut(tt: RadixNode, t: RadixNode, top: RadixNode, ghost w: nat,
                 ghost p: RPath, ghost fr: Frame<RadixNode>, ghost leaf: RTree, ghost objs: set<RadixNode>)
    requires Sub(Plug(p + [fr], leaf), top, objs) && p != [] && p[0].n == top
    requires t == fr.n && leaf.Leaf? && tt == RootOf(leaf)
    requires TreeOk(fr.sib, w, |fr.pre|) && Bit(p, -1) < |fr.pre|
    requires fr.sib.Leaf? ==> fr.anns == Select(fr.sib.chain, Bit(p, -1), |fr.pre|)
    modifies objs
    ensures Sub(Plug(p, Merged(fr.sib, fr.anns, Bit(p, -1))), top, objs)
  {
    SideOf(p + [fr], leaf, top, objs);
    PlugSnoc(p, fr, leaf);
    SideOf(p, Fill(fr, leaf), top, objs);
    var x := if t.l == tt then t.r else t.l;
    var up := t.p;
    DropLeaf(t, up, up.r == t, x, top, w, p, fr, leaf, objs);
  }

  lemma {:induction false} LastValue(p: RPath, fr: Frame<RadixNode>, leaf: RTree, w: nat, top: RadixNode,
                                     objs: set<RadixNode>)
    requires Sub(Plug(p + [fr], leaf), top, objs) && p != [] && p[0].n == top
    requires leaf.Leaf? && AtLeaf(p + [fr], leaf.key, leaf.chain, leaf.key, w) && |leaf.chain| == 1
    ensures var q := Unlift(p + [fr], ItemAt(leaf, 0));
      var p', fr' := q[..|p|], q[|p|];
      var n := Plug(p', Merged(fr'.sib, fr'.anns, Bit(p, -1)));
      && q == p' + [fr'] && p' != [] && p'[0].n == top && fr'.n == fr.n && Bit(p', -1) == Bit(p, -1)
      && TreeOk(fr'.sib, w, |fr'.pre|) && Bit(p, -1) < |fr'.pre|
      && (fr'.sib.Leaf? ==> fr'.anns == Select(fr'.sib.chain, Bit(p, -1), |fr'.pre|))
      && n.Node? && n.n == top && n.pre == p[0].pre && TreeOk(n, w, -1)
      && Items(n) == SibItems(p + [fr]) + Items(leaf) - {ItemAt(leaf, 0)}
      && Internals(n) == Internals(Plug(p + [fr], leaf)) - {fr.n}
      && Objs(n) <= Objs(Plug(p + [fr], leaf)) - {fr.n, leaf.chain[0].id}
  {
    hide TreeOk, PathOk, Sub, LeafOk, AllItemsOk;
    LastLeafOk(p, fr, leaf, w);
    UnliftSame(p, fr, ItemAt(leaf, 0));
    LastObjs(p, fr, leaf, top, objs);
  }

  lemma {:induction false} LastObjs(p: RPath, fr: Frame<RadixNode>, leaf: RTree, top: RadixNode, objs: set<RadixNode>)
    requires Sub(Plug(p + [fr], leaf), top, objs) && p != [] && p[0].n == top && leaf.Leaf? && |leaf.chain| == 1
    ensures var q := Unlift(p + [fr], ItemAt(leaf, 0));
      var n := Plug(q[..|p|], Merged(q[|p|].sib, q[|p|].anns, Bit(p, -1)));
      && Internals(n) == Internals(Plug(p + [fr], leaf)) - {fr.n}
      && Objs(n) <= Objs(Plug(p + [fr], leaf)) - {fr.n, leaf.chain[0].id}
  {
    var q, f := Unlift(p + [fr], ItemAt(leaf, 0)), Fill(fr, leaf);
    var p', m := q[..|p|], Merged(q[|p|].sib, q[|p|].anns, Bit(p, -1));
    UnliftSame(p, fr, ItemAt(leaf, 0));
    SpineSame(p, p');
    PlugSnoc(p, fr, leaf);
    FocusLinks(p, f, top, objs);
    MergedObjs(fr.sib, q[|p|].anns, Bit(p, -1));
    LastSets(p, p', fr, m, leaf);
  }

  lemma UnliftSame(p: RPath, fr: Frame<RadixNode>, x: Item<RadixNode>)
    ensures var q := Unlift(p + [fr], x);
      && (forall k :: 0 <= k < |p| ==>
            q[k].n == p[k].n && q[k].sib == p[k].sib && q[k].pre == p[k].pre && q[k].right == p[k].right)
      && q[|p|].n == fr.n && q[|p|].sib == fr.sib && q[|p|].right == fr.right && q[|p|].pre == fr.pre
      && Bit(q[..|p|], -1) == Bit(p, -1) && |q[..|p|]| == |p|
  {
  }

  lemma LastSets(p: RPath, p': RPath, fr: Frame<RadixNode>, m: RTree, leaf: RTree)
    requires SpineObjs(p) == SpineObjs(p') && SibObjs(p) == SibObjs(p') && PathInternals(p) == PathInternals(p')
    requires leaf.Leaf? && |leaf.chain| == 1 && Objs(m) == Objs(fr.sib) && Internals(m) == Internals(fr.sib)
    requires Distinct(Fill(fr, leaf)) && Objs(Fill(fr, leaf)) !! SpineObjs(p) + SibObjs(p)
    ensures Internals(Plug(p', m)) == Internals(Plug(p, Fill(fr, leaf))) - {fr.n}
    ensures Objs(Plug(p', m)) <= Objs(Plug(p, Fill(fr, leaf))) - {fr.n, leaf.chain[0].id}
  {
    var rest := SpineObjs(p) + SibObjs(p);
    assert leaf.chain[0].id in Objs(leaf);
    assert Objs(Plug(p', m)) == Objs(fr.sib) + rest by { PlugObjs(p', m); }
    assert Objs(Plug(p, Fill(fr, leaf))) == {fr.n} + Objs(leaf) + Objs(fr.sib) + rest by {
      PlugObjs(p, Fill(fr, leaf));
    }
    assert Internals(Plug(p', m)) == Internals(fr.sib) + PathInternals(p) by { PlugInternals(p', m); }
    assert Internals(Plug(p, Fill(fr, leaf))) == {fr.n} + Internals(fr.sib) + PathInternals(p) by {
      PlugInternals(p, Fill(fr, leaf));
    }
    PathInternalsObjs(p);
    TreeObjs(fr.sib);
  }

  lemma SubNarrow(n: RTree, top: RadixNode, objs: set<RadixNode>)
    requires Sub(n, top, objs)
    ensures Sub(n, top, Objs(n))
  {
  }

  // Deletes the only entry of its key with the node t above.  t may belong to another pair, and the
  // internal node of the entry's own pair be in use elsewhere: then t takes over from that one.
  method RemoveLone(tt: RadixNode, top: RadixNode, ghost twin: RadixNode, ghost w: nat,
                    ghost p: RPath, ghost fr: Frame<RadixNode>, ghost leaf: RTree, ghost objs: set<RadixNode>)
    returns (ghost n: RTree)
    requires Sub(Plug(p + [fr], leaf), top, objs) && p != [] && p[0].n == top && p[0].pre == []
    requires leaf.Leaf? && AtLeaf(p + [fr], leaf.key, leaf.chain, leaf.key, w)
    requires |leaf.chain| == 1 && tt == leaf.chain[0].id && tt.twin == twin
    requires objs == Objs(Plug(p + [fr], leaf)) && twin in Internals(Plug(p + [fr], leaf)) && twin != top
    modifies objs
    ensures Sub(n, top, Objs(n)) && Shaped(n, top, w) && tt !in Objs(n) && twin !in Objs(n) && !tt.active
        && !twin.active
    ensures Objs(n) <= objs && Internals(n) == Internals(Plug(p + [fr], leaf)) - {twin}
    ensures Items(n) == SibItems(p + [fr]) + Items(leaf) - {ItemAt(leaf, 0)}
  {
    hide TreeOk, Sub, AtLeaf, SibItems, Items, Plug;
    LoneFacts(p, fr, leaf, top, objs);
    var t := tt.p;
    n := RemoveLast(tt, top, w, p, fr, leaf, objs);
    SubNarrow(n, top, objs);
    var x := tt.twin;
    if t != x {
      n := ReslotAt(x, t, top, w, n, Objs(n));
    }
    Release(tt, x, n, top, objs);
  }

  lemma {:induction false} LoneFacts(p: RPath, fr: Frame<RadixNode>, leaf: RTree, top: RadixNode, objs: set<RadixNode>)
    requires Sub(Plug(p + [fr], leaf), top, objs) && p != [] && p[0].n == top && leaf.Leaf? && |leaf.chain| == 1
    ensures leaf.chain[0].id.p == fr.n && {leaf.chain[0].id, fr.n} <= Objs(Plug(p + [fr], leaf))
        && leaf.chain[0].id != fr.n
    ensures fr.n in Internals(Plug(p + [fr], leaf)) && leaf.chain[0].id !in Internals(Plug(p + [fr], leaf))
    ensures Internals(Plug(p + [fr], leaf)) <= Objs(Plug(p + [fr], leaf))
  {
    SideOf(p + [fr], leaf, top, objs);
    EntryIn(p + [fr], leaf, 0);
    PlugInternals(p + [fr], leaf);
    SnocInternals(p, fr);
    FocusLinks(p + [fr], leaf, top, objs);
    PathInternalsObjs(p + [fr]);
    assert leaf.chain[0].id in Objs(leaf);
  }
}
