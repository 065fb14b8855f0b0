// What insertion and deletion do to the tree as a value, and to the pairing of slots.

module RadixGrowth {
  import opened RadixTree
  import opened RadixSteps

  // v and the key of the leaf it leads to agree on every bit tested on the way.
  lemma DiffOffPath<I>(path: Path<I>, key: Key, chain: seq<Entry<I>>, v: Key, w: nat, d: nat, i: nat)
    requires AtLeaf(path, key, chain, v, w) && FirstDiff(v, key, d) && d < w && i < |path|
    ensures |path[i].pre| != d
  {
    assert Item(key, chain[0].mask, chain[0].root, chain[0].id) in ChainItems(key, chain) by {
      assert chain[0] in chain;
    }
    FrameAt(path, ChainItems(key, chain), w, -1, i);
    assert path[i].pre + [path[i].right] <= key;
    assert key[|path[i].pre|] == path[i].right;
  }

  // The subtree below the first k nodes of v's path, those that test a bit before d.
  ghost predicate CutAt<I>(path: Path<I>, d: nat, k: nat) {
    && 0 < k <= |path|
    && |path[k - 1].pre| < d
    && (k < |path| ==> |path[k].pre| > d)
  }

  lemma CutOk<I>(path: Path<I>, leaf: Tree<I>, v: Key, w: nat, d: nat, k: nat)
    requires leaf.Leaf? && AtLeaf(path, leaf.key, leaf.chain, v, w) && FirstDiff(v, leaf.key, d) && d < w
    requires CutAt(path, d, k)
    ensures var f := Plug(path[k..], leaf);
      && PathOk(path[..k], Items(f), w, -1) && TreeOk(f, w, Bit(path[..k], -1))
      && (f.Node? ==> d < |f.pre|)
      && Under(Items(f), v[..d] + [!v[d]])
      && SibItems(path[..k]) + Items(f) == SibItems(path) + Items(leaf)
  {
    hide AnnsOk, AllItemsOk, SibItems, PathOk;
    var f := Plug(path[k..], leaf);
    PlugSplit(path, k, leaf);
    PlugOk(path, leaf, w, -1);
    PlugOk(path[..k], f, w, -1);
    PlugItems(path[k..], leaf);
    forall x | x in Items(f) ensures v[..d] + [!v[d]] <= x.key {
      SameBeyond(path, leaf, v, w, d, k, x);
      BeyondPrefix(v, leaf.key, x.key, d);
    }
  }

  lemma BeyondPrefix(v: Key, key: Key, other: Key, d: nat)
    requires FirstDiff(v, key, d) && d < |v| && |other| > d && other[..d + 1] == key[..d + 1]
    ensures v[..d] + [!v[d]] <= other
  {
    assert key[..d + 1] == key[..d] + [key[d]];
  }

  // All keys of the subtree agree with the leaf's key up to bit d.
  lemma SameBeyond<I>(path: Path<I>, leaf: Tree<I>, v: Key, w: nat, d: nat, k: nat, x: Item<I>)
    requires leaf.Leaf? && AtLeaf(path, leaf.key, leaf.chain, v, w) && d < w
    requires CutAt(path, d, k) && x in Items(Plug(path[k..], leaf))
    ensures |x.key| == w == |leaf.key| && x.key[..d + 1] == leaf.key[..d + 1]
  {
    hide TreeOk, AnnsOk, PathOk, Plug, EntryOk, ChainSorted, Follows;
    PlugItems(path[k..], leaf);
    PlugSplit(path, k, leaf);
    assert ItemOk(x, w);
    if k < |path| {
      var s := Items(leaf);
      var y := Item(leaf.key, leaf.chain[0].mask, leaf.chain[0].root, leaf.chain[0].id);
      assert y in s by { assert leaf.chain[0] in leaf.chain; }
      FrameAt(path, s, w, -1, k);
      assert path[k..][0] == path[k] && path[k..][1..] == path[k + 1..];
      UnderBoth(path[k], s + SibItems(path[k + 1..]));
      PrefixSlice(path[k].pre, x.key, leaf.key, d + 1);
    }
  }

  // The path to the place of a new key, through the new node n.
  ghost function NewPath<I>(path: Path<I>, leaf: Tree<I>, v: Key, d: nat, k: nat, n: I): Path<I>
    requires 0 < k <= |path| && d < |v|
  {
    var f := Plug(path[k..], leaf);
    path[..k] + [Frame(n, v[..d], Handed(f, |path[k - 1].pre|, d), v[d], Kept(f, d))]
  }

  lemma NewPathOk<I>(path: Path<I>, leaf: Tree<I>, v: Key, w: nat, d: nat, k: nat, n: I)
    requires leaf.Leaf? && AtLeaf(path, leaf.key, leaf.chain, v, w) && FirstDiff(v, leaf.key, d) && d < w
    requires CutAt(path, d, k)
    ensures var q := NewPath(path, leaf, v, d, k, n);
      PathOk(q, {}, w, -1) && SibItems(q) == SibItems(path) + Items(leaf) && Fits(q, v)
  {
    hide TreeOk, AnnsOk, PathOk, LeafOk, AllItemsOk, Items, Plug, Under;
    CutOk(path, leaf, v, w, d, k);
    var p, f, pre := path[..k], Plug(path[k..], leaf), v[..d];
    assert Bit(p, -1) == |path[k - 1].pre| && |pre| == d;
    SpliceOk(p, f, w, n, pre, v[d]);
    FitsCut(path, leaf, v, w, d, k, Frame(n, pre, Handed(f, |path[k - 1].pre|, d), v[d], Kept(f, d)));
  }

  // The path through a node spliced in above the subtree f, with nothing on the new side yet.
  lemma SpliceOk<I>(p: Path<I>, f: Tree<I>, w: nat, n: I, pre: Key, right: bool)
    requires PathOk(p, Items(f), w, -1) && TreeOk(f, w, Bit(p, -1)) && p != [] && Bit(p, -1) < |pre| < w
    requires (f.Node? ==> |pre| < |f.pre|) && Under(Items(f), pre + [!right])
    ensures var q := p + [Frame(n, pre, Handed(f, Bit(p, -1), |pre|), right, Kept(f, |pre|))];
      PathOk(q, {}, w, -1) && SibItems(q) == SibItems(p) + Items(f)
  {
    Split(f, w, Bit(p, -1), n, pre, right);
    var fr := Frame(n, pre, Handed(f, Bit(p, -1), |pre|), right, Kept(f, |pre|));
    assert {} + Items(fr.sib) == Items(f);
    PathSnoc(p, fr, {}, w, -1);
    PlugSnoc(p, fr, f);
  }

  lemma PrefixCarries(pre: Key, key: Key, v: Key, d: nat)
    requires pre <= key && |pre| <= d && d <= |v| && d <= |key| && v[..d] == key[..d]
    ensures pre <= v
  {
    assert pre == key[..d][..|pre|] == v[..d][..|pre|];
  }

  lemma FitsOne<I>(path: Path<I>, leaf: Tree<I>, v: Key, w: nat, d: nat, k: nat, i: nat)
    requires leaf.Leaf? && AtLeaf(path, leaf.key, leaf.chain, v, w) && FirstDiff(v, leaf.key, d) && d < w
    requires CutAt(path, d, k) && i < k
    ensures path[i].pre + [path[i].right] <= v
  {
    hide TreeOk, AnnsOk, PathOk, EntryOk, ChainSorted, Follows, AllItemsOk;
    assert Item(leaf.key, leaf.chain[0].mask, leaf.chain[0].root, leaf.chain[0].id) in Items(leaf) by {
      assert leaf.chain[0] in leaf.chain;
    }
    FrameAt(path, Items(leaf), w, -1, i);
    assert path[i].pre + [path[i].right] <= leaf.key;
    if i < k - 1 { BitsIncrease(path, Items(leaf), w, -1, i, k - 1); }
    PrefixCarries(path[i].pre + [path[i].right], leaf.key, v, d);
  }

  lemma FitsCut<I>(path: Path<I>, leaf: Tree<I>, v: Key, w: nat, d: nat, k: nat, fr: Frame<I>)
    requires leaf.Leaf? && AtLeaf(path, leaf.key, leaf.chain, v, w) && FirstDiff(v, leaf.key, d) && d < w
    requires CutAt(path, d, k) && fr.pre == v[..d] && fr.right == v[d]
    ensures Fits(path[..k] + [fr], v)
  {
    hide TreeOk, AnnsOk, PathOk, LeafOk, AllItemsOk, SibItems, Items;
    var q := path[..k] + [fr];
    forall i | 0 <= i < |q| ensures q[i].pre + [q[i].right] <= v {
      if i < k {
        assert q[i] == path[i];
        FitsOne(path, leaf, v, w, d, k, i);
      } else {
        assert v[..d] + [v[d]] == v[..d + 1];
      }
    }
  }

  // The list that is to take a new route's annotation has none of that index yet.
  lemma NoSameIndex<I>(path: Path<I>, s: set<Item<I>>, x: Item<I>, w: nat)
    requires PathOk(path, s, w, -1) && AllItemsOk(s + SibItems(path) + {x}, w) && Fits(path, x.key)
    requires forall y :: y in s + SibItems(path) ==> !SameRoute(x, y)
    requires x.mask.Net? && Home(path, x.mask.len) < |path|
    ensures forall a :: a in path[Home(path, x.mask.len)].anns ==> a.len != x.mask.len
  {
    var j := Home(path, x.mask.len);
    HomeBit(path, x.mask.len);
    FrameAt(path, s, w, -1, j);
    var fr, inner := path[j], s + SibItems(path[j + 1..]);
    forall a | a in fr.anns && a.len == x.mask.len ensures false {
      var y :| y in inner + Items(fr.sib) && y.mask == Net(a.len) && y.id == a.id;
      SibsBelow(path, j, j);
      if j + 1 < |path| { SibsBelow(path, j + 1, j + 1); }
      assert y in s + SibItems(path);
      UnderBoth(fr, inner);
      assert fr.pre + [fr.right] <= x.key;
      SameMaskSameKey(x, y, fr.pre, w);
      assert SameRoute(x, y);
    }
  }

  lemma {:induction false} HomeBit<I>(path: Path<I>, len: nat)
    requires Home(path, len) < |path|
    ensures len <= |path[Home(path, len)].pre|
    ensures Home(path, len) > 0 ==> len > |path[Home(path, len) - 1].pre|
  {
    if len > |path[0].pre| {
      HomeBit(path[1..], len);
      if Home(path[1..], len) == 0 { assert path[1..] != []; }
    }
  }

  ghost function Placed<I>(id: I, m: Mask, up: int): Entry<I> {
    Entry(id, m, false, m.Net? && m.len <= up)
  }

  // A leaf below its lifted path is a tree in order.
  lemma LiftedOk<I>(q: Path<I>, s: set<Item<I>>, leaf: Tree<I>, x: Item<I>, w: nat)
    requires PathOk(q, s, w, -1) && q != []
    requires AllItemsOk(s + SibItems(q) + {x}, w) && Fits(q, x.key)
    requires forall y :: y in s + SibItems(q) ==> !SameRoute(x, y)
    requires leaf.Leaf? && LeafOk(leaf.key, leaf.chain, w, Bit(q, -1)) && Items(leaf) == s + {x}
    ensures TreeOk(Plug(Lift(q, x), leaf), w, -1)
    ensures Items(Plug(Lift(q, x), leaf)) == s + SibItems(q) + {x}
  {
    forall y | y in s ensures Fits(q, y.key) { PathFits(q, s, w, -1, y); }
    PathAdd(q, s, x, w, -1);
    LiftSib(q, x);
    LiftBit(q, x);
    PlugOk(Lift(q, x), leaf, w, -1);
    PlugItems(Lift(q, x), leaf);
  }

  lemma LiftBit<I>(q: Path<I>, x: Item<I>)
    ensures Bit(Lift(q, x), -1) == Bit(q, -1) && Bit(Unlift(q, x), -1) == Bit(q, -1)
  {
  }

  lemma OneLeaf<I>(v: Key, e: Entry<I>, w: nat, up: int)
    requires |v| == w && EntryOk(v, e, up)
    ensures LeafOk(v, [e], w, up) && Items(Leaf(v, [e])) == {Item(v, e.mask, e.root, e.id)}
  {
    assert [e][0] in [e];
  }

  // A new key.
  lemma NewLeafOk<I>(path: Path<I>, leaf: Tree<I>, v: Key, w: nat, d: nat, k: nat, n: I, id: I, m: Mask)
    requires leaf.Leaf? && AtLeaf(path, leaf.key, leaf.chain, v, w) && FirstDiff(v, leaf.key, d) && d < w
    requires CutAt(path, d, k) && (m.Net? ==> m.len <= w && Clear(v, m.len))
    requires forall y :: y in SibItems(path) + Items(leaf) ==> y.key != v
    ensures var q, x := NewPath(path, leaf, v, d, k, n), Item(v, m, false, id);
      var t := Plug(Lift(q, x), Leaf(v, [Placed(id, m, d)]));
      && PathOk(q, {}, w, -1) && |q[|q| - 1].pre| == d
      && TreeOk(t, w, -1) && Items(t) == SibItems(path) + Items(leaf) + {x}
      && (m.Net? && Home(q, m.len) < |q| ==> forall a :: a in q[Home(q, m.len)].anns ==> a.len != m.len)
  {
    hide TreeOk, AnnsOk, EntryOk, ChainSorted, Follows, PathOk;
    var q, x := NewPath(path, leaf, v, d, k, n), Item(v, m, false, id);
    NewPathOk(path, leaf, v, w, d, k, n);
    OneLeaf(v, Placed(id, m, d), w, d);
    assert {} + SibItems(q) == SibItems(path) + Items(leaf);
    if m.Net? && Home(q, m.len) < |q| { NoSameIndex(q, {}, x, w); }
    LiftedOk(q, {}, Leaf(v, [Placed(id, m, d)]), x, w);
  }

  // Another mask for a key that is there already.
  lemma DupLeafOk<I>(path: Path<I>, leaf: Tree<I>, w: nat, i: nat, id: I, m: Mask)
    requires leaf.Leaf? && AtLeaf(path, leaf.key, leaf.chain, leaf.key, w) && path != []
    requires m.Net? ==> m.len <= w && Clear(leaf.key, m.len)
    requires i <= |leaf.chain| && (forall j :: 0 <= j < i ==> Rank(leaf.chain[j].mask, w) > Rank(m, w))
    requires i < |leaf.chain| ==> Rank(leaf.chain[i].mask, w) < Rank(m, w)
    requires forall y :: y in Items(leaf) + SibItems(path) ==> !SameRoute(Item(leaf.key, m, false, id), y)
    ensures var x, e := Item(leaf.key, m, false, id), Placed(id, m, Bit(path, -1));
      var t := Plug(Lift(path, x), Leaf(leaf.key, leaf.chain[..i] + [e] + leaf.chain[i..]));
      && TreeOk(t, w, -1) && Items(t) == Items(leaf) + SibItems(path) + {x}
      && (m.Net? && Home(path, m.len) < |path| ==> forall a :: a in path[Home(path, m.len)].anns ==> a.len != m.len)
  {
    var x, e := Item(leaf.key, m, false, id), Placed(id, m, Bit(path, -1));
    var s := Items(leaf);
    assert EntryOk(leaf.key, e, Bit(path, -1));
    ChainPut(leaf.key, leaf.chain, i, e, w, Bit(path, -1));
    PutItems(leaf.key, leaf.chain, i, e);
    var y := Item(leaf.key, leaf.chain[0].mask, leaf.chain[0].root, leaf.chain[0].id);
    assert y in s by { assert leaf.chain[0] in leaf.chain; }
    PathFits(path, s, w, -1, y);
    if m.Net? && Home(path, m.len) < |path| { NoSameIndex(path, s, x, w); }
    LiftedOk(path, s, Leaf(leaf.key, leaf.chain[..i] + [e] + leaf.chain[i..]), x, w);
  }

  // ---- deletion ------------------------------------------------------------------------------

  // Where the list of a route that is lifted stands, and that it is there.
  lemma AnnotationThere<I>(path: Path<I>, s: set<Item<I>>, x: Item<I>, w: nat)
    requires PathOk(path, s, w, -1) && x in s && x.mask.Net? && path != [] && x.mask.len <= |path[|path| - 1].pre|
    ensures Home(path, x.mask.len) < |path|
    ensures Ann(x.mask.len, x.id) in path[Home(path, x.mask.len)].anns
  {
    HomeExists(path, x.mask.len);
    var j := Home(path, x.mask.len);
    HomeBit(path, x.mask.len);
    FrameAt(path, s, w, -1, j);
  }

  lemma {:induction false} HomeExists<I>(path: Path<I>, len: nat)
    requires path != [] && len <= |path[|path| - 1].pre|
    ensures Home(path, len) < |path|
  {
    if len > |path[0].pre| {
      HomeExists(path[1..], len);
    }
  }

  // One of several entries of a leaf goes.
  lemma CutLeafOk<I>(path: Path<I>, leaf: Tree<I>, w: nat, i: nat)
    requires leaf.Leaf? && AtLeaf(path, leaf.key, leaf.chain, leaf.key, w) && path != []
    requires i < |leaf.chain| && |leaf.chain| > 1
    ensures var e := leaf.chain[i];
      var x := Item(leaf.key, e.mask, e.root, e.id);
      var t := Plug(Unlift(path, x), Leaf(leaf.key, leaf.chain[..i] + leaf.chain[i + 1..]));
      TreeOk(t, w, -1) && Items(t) == SibItems(path) + Items(leaf) - {x}
  {
    hide AnnsOk, PathOk, EntryOk, ChainSorted, AllItemsOk, SibItems, Plug, Lift, Unlift, ItemOk, Home;
    var e := leaf.chain[i];
    var x := Item(leaf.key, e.mask, e.root, e.id);
    var s := Items(leaf);
    ChainCut(leaf.key, leaf.chain, i, w, Bit(path, -1));
    DropOk(path, leaf, w, x, i);
    LiftBit(path, x);
    LiftSib(path, x);
    PlugOk(Unlift(path, x), Leaf(leaf.key, leaf.chain[..i] + leaf.chain[i + 1..]), w, -1);
    PlugItems(Unlift(path, x), Leaf(leaf.key, leaf.chain[..i] + leaf.chain[i + 1..]));
  }

  lemma DropOk<I>(path: Path<I>, leaf: Tree<I>, w: nat, x: Item<I>, i: nat)
    requires leaf.Leaf? && AtLeaf(path, leaf.key, leaf.chain, leaf.key, w)
    requires i < |leaf.chain| && x == Item(leaf.key, leaf.chain[i].mask, leaf.chain[i].root, leaf.chain[i].id)
    ensures PathOk(Unlift(path, x), Items(leaf) - {x}, w, -1)
    ensures x in Items(leaf) && x !in SibItems(path)
  {
    var s := Items(leaf);
    assert x in s by { assert leaf.chain[i] in leaf.chain; }
    forall y | y in s ensures Fits(path, y.key) { PathFits(path, s, w, -1, y); }
    NotBeside(path, leaf, w, x);
    PathDrop(path, s, x, w, -1);
  }

  lemma NotBeside<I>(path: Path<I>, leaf: Tree<I>, w: nat, x: Item<I>)
    requires leaf.Leaf? && AtLeaf(path, leaf.key, leaf.chain, leaf.key, w) && x.key == leaf.key
    ensures x !in SibItems(path)
  {
    forall y | y in SibItems(path) ensures y.key != leaf.key {
      var i := SibAt(path, y);
      FrameAt(path, Items(leaf), w, -1, i);
      assert path[i].pre + [!path[i].right] <= y.key;
      assert y.key[|path[i].pre|] == !path[i].right;
    }
  }

  // The only entry of a leaf goes, and with it the node above.
  lemma LastLeafOk<I>(p: Path<I>, fr: Frame<I>, leaf: Tree<I>, w: nat)
    requires leaf.Leaf? && AtLeaf(p + [fr], leaf.key, leaf.chain, leaf.key, w) && |leaf.chain| == 1
    ensures var x := Item(leaf.key, leaf.chain[0].mask, leaf.chain[0].root, leaf.chain[0].id);
      var q := Unlift(p + [fr], x);
      var t := Plug(q[..|p|], Merged(q[|p|].sib, q[|p|].anns, Bit(p, -1)));
      && TreeOk(t, w, -1) && Items(t) == SibItems(p + [fr]) + Items(leaf) - {x}
      && Bit(p, -1) < |fr.pre| && TreeOk(fr.sib, w, |fr.pre|)
      && (fr.sib.Leaf? ==> q[|p|].anns == Select(fr.sib.chain, Bit(p, -1), |fr.pre|))
  {
    hide TreeOk, PathOk, EntryOk, ChainSorted, Follows;
    var path := p + [fr];
    var x := Item(leaf.key, leaf.chain[0].mask, leaf.chain[0].root, leaf.chain[0].id);
    var q := Unlift(path, x);
    DropOk(path, leaf, w, x, 0);
    assert Items(leaf) == {x} by { assert leaf.chain == [leaf.chain[0]]; }
    assert Items(leaf) - {x} == {};
    LiftSib(path, x);
    UnliftParts(p, fr, x);
    assert q == q[..|p|] + [q[|p|]];
    MergeOk(q[..|p|], q[|p|], w);
  }

  // A path that has lost all items at its end, without its last node.
  lemma MergeOk<I>(p: Path<I>, fr: Frame<I>, w: nat)
    requires PathOk(p + [fr], {}, w, -1)
    ensures var t := Plug(p, Merged(fr.sib, fr.anns, Bit(p, -1)));
      && TreeOk(t, w, -1) && Items(t) == SibItems(p + [fr])
    ensures Bit(p, -1) < |fr.pre| && TreeOk(fr.sib, w, |fr.pre|)
    ensures fr.sib.Leaf? ==> fr.anns == Select(fr.sib.chain, Bit(p, -1), |fr.pre|)
  {
    PathSnoc(p, fr, {}, w, -1);
    assert {} + Items(fr.sib) == Items(fr.sib);
    Merge(fr, w, Bit(p, -1));
    var f := Merged(fr.sib, fr.anns, Bit(p, -1));
    PlugOk(p, f, w, -1);
    PlugItems(p, f);
    PlugSnoc(p, fr, f);
  }

  lemma UnliftParts<I>(p: Path<I>, fr: Frame<I>, x: Item<I>)
    ensures var q := Unlift(p + [fr], x);
      && Bit(q[..|p|], -1) == Bit(p, -1)
      && q[|p|] == fr.(anns := q[|p|].anns)
  {
  }

  // ---- internal nodes ------------------------------------------------------------------------

  ghost function PathInternals<I>(path: Path<I>): set<I> {
    if path == [] then {} else {path[0].n} + Internals(path[0].sib) + PathInternals(path[1..])
  }

  lemma {:induction false} PlugInternals<I>(path: Path<I>, f: Tree<I>)
    ensures Internals(Plug(path, f)) == Internals(f) + PathInternals(path)
  {
    if path != [] {
      PlugInternals(path[1..], f);
    }
  }

  lemma {:induction false} SnocInternals<I>(p: Path<I>, fr: Frame<I>)
    ensures PathInternals(p + [fr]) == PathInternals(p) + {fr.n} + Internals(fr.sib)
  {
    if p == [] {
      assert [fr][1..] == [];
    } else {
      assert (p + [fr])[1..] == p[1..] + [fr];
      SnocInternals(p[1..], fr);
    }
  }

  lemma {:induction false} SetInternals<I>(path: Path<I>, j: nat, anns: seq<Ann<I>>)
    requires j < |path|
    ensures PathInternals(path[j := path[j].(anns := anns)]) == PathInternals(path)
  {
    var q := path[j := path[j].(anns := anns)];
    if j == 0 {
      assert q[1..] == path[1..];
    } else {
      assert q[1..] == path[1..][j - 1 := path[1..][j - 1].(anns := anns)];
      SetInternals(path[1..], j - 1, anns);
    }
  }

  lemma LiftInternals<I>(path: Path<I>, x: Item<I>)
    ensures PathInternals(Lift(path, x)) == PathInternals(path) == PathInternals(Unlift(path, x))
  {
    if x.mask.Net? && Home(path, x.mask.len) < |path| {
      var j, a := Home(path, x.mask.len), Ann(x.mask.len, x.id);
      SetInternals(path, j, InsertAnn(path[j].anns, a));
      SetInternals(path, j, RemoveAnn(path[j].anns, a));
    }
  }

  lemma NewInternals<I>(path: Path<I>, leaf: Tree<I>, v: Key, d: nat, k: nat, n: I, x: Item<I>, one: Tree<I>)
    requires 0 < k <= |path| && d < |v| && one.Leaf?
    ensures Internals(Plug(Lift(NewPath(path, leaf, v, d, k, n), x), one)) == Internals(Plug(path, leaf)) + {n}
  {
    var q, f := NewPath(path, leaf, v, d, k, n), Plug(path[k..], leaf);
    PlugInternals(Lift(q, x), one);
    LiftInternals(q, x);
    SnocInternals(path[..k], q[k]);
    PlugSplit(path, k, leaf);
    PlugInternals(path[..k], f);
  }
}
