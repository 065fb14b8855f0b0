// rn_walktree: visits every route in the order of the keys, also when the visitor deletes them.

module RadixWalks {
  import opened RadixTree
  import opened RadixOrders
  import opened RadixNodes
  import opened RadixEdits
  import opened RadixSteps
  import opened RadixSlots
  import opened RadixHeads

  // ---- from one leaf to the next -----------------------------------------------------------------------

  lemma OnesLast(k: Key, w: nat)
    requires |k| == w
    ensures !KeyLess(Ones(w), k) && (k != Ones(w) <==> KeyLess(k, Ones(w))) && !KeyLess(k, Zeros(w))
  {
    if k != Ones(w) {
      var d := FirstZero(k);
      assert LessAt(k, Ones(w), d);
    } else {
      NotLessSelf(k);
    }
  }

  lemma {:induction false} FirstZero(k: Key) returns (d: nat)
    requires exists i :: 0 <= i < |k| && !k[i]
    ensures d < |k| && !k[d] && k[..d] == Ones(|k|)[..d]
    decreases |k|
  {
    d := 0;
    while k[d]
      invariant d < |k| && forall i :: 0 <= i < d ==> k[i]
      decreases |k| - d
    {
      d := d + 1;
    }
  }

  // Below a left frame there are more leaves to come.
  lemma MoreLeaves(h: RadixHead, path: RPath, leaf: RTree)
    requires h.Valid() && h.tree == Plug(path, leaf) && leaf.Leaf? && leaf.key != Ones(h.width)
    ensures After(path) != []
  {
    var w := h.width;
    h.Focus(path, leaf);
    var x :| x in Items(h.tree) && x.root && x.key == Ones(w);
    LeavesPlug(path, leaf);
    var k := |Before(path)|;
    assert Leaves(h.tree)[k] == leaf;
    var i := Placed(h.tree, w, k, x);
    OnesLast(leaf.key, w) by { var y := LeafItem(h.tree, w, -1, k); }
  }

  // The root leaf of zeros is never on the right.
  lemma RightIsNoRoot(h: RadixHead, path: RPath, leaf: RTree)
    requires h.Valid() && h.tree == Plug(path, leaf) && leaf.Leaf? && leaf.key != Ones(h.width)
    requires path != [] && path[|path| - 1].right
    ensures RootOf(leaf) != null && !RootOf(leaf).root
  {
    var w := h.width;
    h.Focus(path, leaf);
    var e := leaf.chain[0];
    var x := Item(leaf.key, e.mask, e.root, e.id);
    assert x in Items(leaf) by { assert e in leaf.chain; }
    assert EntryWired(leaf.key, leaf.chain, 0, Above(path, |path|, h.top));
    FrameAt(path, Items(leaf), w, -1, |path| - 1);
    var fr := path[|path| - 1];
    assert fr.pre + [true] <= x.key;
    assert x.key[|fr.pre|];
  }

  // One step up: the links of the last node of the path.
  lemma LastFrame(h: RadixHead, p: RPath, g: RTree)
    requires h.Valid() && h.tree == Plug(p, g) && p != []
    ensures var fr := p[|p| - 1];
      && RootOf(g) != null && RootOf(g).p == fr.n && RootOf(fr.sib) != null
      && (fr.n.r == RootOf(g) <==> fr.right) && (!fr.right ==> fr.n.r == RootOf(fr.sib))
      && (g.Node? ==> !RootOf(g).root)
      && Plug(p[..|p| - 1], Fill(fr, g)) == h.tree && RootOf(Fill(fr, g)) == fr.n
      && After(p) == (if fr.right then [] else Leaves(fr.sib)) + After(p[..|p| - 1])
  {
    var q, fr := p[..|p| - 1], p[|p| - 1];
    assert p == q + [fr];
    PlugSnoc(q, fr, g);
    SidesSnoc(q, fr);
    h.FocusHere(p, g);
    h.Focus(q, Fill(fr, g));
    SubChild(Fill(fr, g), fr.right, Above(q, |q|, h.top), h.repr);
    h.Focus(p, g);
    RootThere(g, fr.n);
    RootThere(fr.sib, fr.n);
  }

  lemma RootThere(g: RTree, p: RadixNode)
    requires Wired(g, p) && p !in Objs(g)
    ensures RootOf(g) != null && RootOf(g) in Objs(g) && RootOf(g).p == p && (g.Node? ==> !RootOf(g).root)
  {
    if g.Leaf? { assert EntryWired(g.key, g.chain, 0, p); }
  }

  lemma LeftStep(h: RadixHead, path: RPath, f: RTree)
    requires h.Valid() && h.tree == Plug(path, f) && f.Node?
    ensures var q := path + [StepFrame(f, false)];
      && h.tree == Plug(q, f.l) && RootOf(f.l) != null && RootOf(f).l == RootOf(f.l)
      && Leaves(f) + After(path) == Leaves(f.l) + After(q) && Before(q) == Before(path)
  {
    hide RadixHead.Valid, Plug, Leaves, After, Before, StepFrame;
    LeftSides(path, f);
    h.Focus(path, f);
    h.FocusHere(path + [StepFrame(f, false)], f.l);
  }

  lemma LeftSides(path: RPath, f: RTree)
    requires f.Node?
    ensures var q := path + [StepFrame(f, false)];
      Plug(q, f.l) == Plug(path, f) && Leaves(f) + After(path) == Leaves(f.l) + After(q) && Before(q) == Before(path)
  {
    var fr := StepFrame(f, false);
    PlugSnoc(path, fr, f.l);
    SidesSnoc(path, fr);
    assert Leaves(f) + After(path) == Leaves(f.l) + (Leaves(f.r) + After(path));
  }

  lemma OneLeaf(f: RTree)
    requires f.Leaf?
    ensures Leaves(f) == [f]
  {
  }

  // First time through a node: left, down to a leaf.
  method GoLeft(h: RadixHead, x: RadixNode, ghost p: RPath, ghost g: RTree)
    returns (y: RadixNode, ghost path: RPath, ghost leaf: RTree)
    requires h.Valid() && h.tree == Plug(p, g) && x == RootOf(g)
    ensures h.tree == Plug(path, leaf) && leaf.Leaf? && y == RootOf(leaf)
    ensures Leaves(g) + After(p) == [leaf] + After(path) && Before(path) == Before(p)
  {
    hide Plug, Leaves, After, Before, TreeOk, Wired;
    y := x;
    ghost var f := g;
    path := p;
    while y.b >= 0
      invariant h.tree == Plug(path, f) && y == RootOf(f)
      invariant Leaves(g) + After(p) == Leaves(f) + After(path) && Before(path) == Before(p)
      decreases f
    {
      h.FocusHere(path, f);
      ghost var fr := StepFrame(f, false);
      LeftStep(h, path, f);
      path, f := path + [fr], f.l;
      y := y.l;
    }
    h.FocusHere(path, f);
    OneLeaf(f);
    leaf := f;
  }

  lemma NoMore()
    ensures After<RadixNode>([]) == []
  {
  }

  // If at the right child go back up.
  method GoUp(h: RadixHead, rn: RadixNode, ghost path: RPath, ghost leaf: RTree)
    returns (x: RadixNode, ghost p: RPath, ghost g: RTree)
    requires h.Valid() && h.tree == Plug(path, leaf) && leaf.Leaf? && rn == RootOf(leaf) && leaf.key != Ones(h.width)
    ensures h.tree == Plug(p, g) && x == RootOf(g) && After(p) == After(path) && p != [] && !p[|p| - 1].right
  {
    hide RadixHead.Valid, Plug, After, Leaves;
    x, p, g := rn, path, leaf;
    NoMore();
    MoreLeaves(h, path, leaf);
    LastFrame(h, p, g);
    if p[|p| - 1].right { RightIsNoRoot(h, path, leaf); }
    while x.p.r == x && !x.root
      invariant h.tree == Plug(p, g) && x == RootOf(g) && After(p) == After(path) && p != []
      invariant x.p == p[|p| - 1].n && (x.p.r == x <==> p[|p| - 1].right)
      invariant p[|p| - 1].right ==> !x.root
      decreases |p|
    {
      ghost var fr := p[|p| - 1];
      LastFrame(h, p, g);
      p, g := p[..|p| - 1], Fill(fr, g);
      x := x.p;
      assert p != [];
      LastFrame(h, p, g);
    }
  }

  // The path to the subtree on the right of a left child.
  lemma Flip(h: RadixHead, p: RPath, g: RTree) returns (q: RPath)
    requires h.Valid() && h.tree == Plug(p, g) && p != [] && !p[|p| - 1].right
    ensures var sib := p[|p| - 1].sib;
      && RootOf(g) != null && RootOf(g).p != null && RootOf(g).p.r != null && RootOf(g).p.r == RootOf(sib)
      && h.tree == Plug(q, sib) && After(p) == Leaves(sib) + After(q)
  {
    hide RadixHead.Valid, Plug, After, Leaves;
    LastFrame(h, p, g);
    var fr := p[|p| - 1];
    var flip := Frame(fr.n, fr.pre, fr.anns, true, g);
    q := p[..|p| - 1] + [flip];
    PlugSnoc(p[..|p| - 1], flip, fr.sib);
    SidesSnoc(p[..|p| - 1], flip);
  }

  // The leaf after the one that rn is the head of.
  method NextLeaf(h: RadixHead, rn: RadixNode, ghost path: RPath, ghost leaf: RTree)
    returns (next: RadixNode, ghost path': RPath, ghost leaf': RTree)
    requires h.Valid() && h.tree == Plug(path, leaf) && leaf.Leaf? && rn == RootOf(leaf) && leaf.key != Ones(h.width)
    ensures h.tree == Plug(path', leaf') && leaf'.Leaf? && next == RootOf(leaf')
    ensures After(path) == [leaf'] + After(path')
  {
    hide RadixHead.Valid, Plug, Leaves, After, Before;
    var x;
    ghost var p, g;
    x, p, g := GoUp(h, rn, path, leaf);
    ghost var q := Flip(h, p, g);
    next, path', leaf' := GoLeft(h, x.p.r, q, p[|p| - 1].sib);
  }

  // ---- the routes of one leaf --------------------------------------------------------------------------

  function ItemOf(key: Key, e: REntry): RItem { Item(key, e.mask, e.root, e.id) }

  // The routes of a chain that are shown to the visitor.
  function Shown(key: Key, chain: seq<REntry>): seq<RItem> {
    if chain == [] then [] else (if chain[0].root then [] else [ItemOf(key, chain[0])]) + Shown(key, chain[1..])
  }

  // Those of them that the visitor deletes.
  function Gone(order: seq<RItem>, goes: set<RadixNode>): set<RItem> { set x | x in order && x.id in goes }

  lemma {:induction false} ShownMember(key: Key, chain: seq<REntry>, x: RItem)
    ensures x in Shown(key, chain) <==> x in ChainItems(key, chain) && !x.root
  {
    if chain != [] {
      ShownMember(key, chain[1..], x);
      assert chain == [chain[0]] + chain[1..];
    }
  }

  lemma {:induction false} ShownSnoc(key: Key, chain: seq<REntry>, e: REntry)
    ensures Shown(key, chain + [e]) == Shown(key, chain) + (if e.root then [] else [ItemOf(key, e)])
  {
    if chain == [] {
      assert [e][1..] == [];
    } else {
      assert (chain + [e])[1..] == chain[1..] + [e];
      ShownSnoc(key, chain[1..], e);
    }
  }

  // All routes of the key in s are those of the chain, the most specific first.
  ghost predicate ChainOf(s: set<RItem>, key: Key, chain: seq<REntry>, w: nat) {
    && (forall x :: x in s && x.key == key ==> x in ChainItems(key, chain))
    && ChainItems(key, chain) <= s && ChainSorted(chain, w)
  }

  lemma ChainIndex(key: Key, chain: seq<REntry>, x: RItem) returns (k: nat)
    requires x in ChainItems(key, chain)
    ensures k < |chain| && x == ItemOf(key, chain[k])
  {
    var e :| e in chain && x == Item(key, e.mask, e.root, e.id);
    k :| 0 <= k < |chain| && chain[k] == e;
  }

  // What is left when the visitor has been shown the first j entries.
  ghost predicate LeftOver(s: set<RItem>, s0: set<RItem>, key: Key, chain: seq<REntry>, j: nat, goes: set<RadixNode>)
    requires j <= |chain|
  {
    s == s0 - Gone(Shown(key, chain[..j]), goes)
  }

  lemma StillThere(s: set<RItem>, s0: set<RItem>, key: Key, chain: seq<REntry>, j: nat, goes: set<RadixNode>, w: nat,
                   k: nat)
    requires ChainOf(s0, key, chain, w) && j <= k < |chain| && LeftOver(s, s0, key, chain, j, goes)
    ensures ItemOf(key, chain[k]) in s
  {
    var x := ItemOf(key, chain[k]);
    assert x in ChainItems(key, chain) by { assert chain[k] in chain; }
    ShownMember(key, chain[..j], x);
    forall i | 0 <= i < j ensures chain[i].mask != x.mask {
      assert Rank(chain[i].mask, w) > Rank(chain[k].mask, w);
    }
    assert forall e :: e in chain[..j] ==> e.mask != x.mask;
  }

  // Where an item is, and what the links of its node show.
  lemma Found(h: RadixHead, x: RItem) returns (path: RPath, f: RTree, i: nat)
    requires h.Valid() && x in Items(h.tree)
    ensures h.tree == Plug(path, f) && f.Leaf? && f.key == x.key && i < |f.chain| && x == ItemOf(f.key, f.chain[i])
    ensures ChainSorted(f.chain, h.width) && |x.key| == h.width
    ensures x.id.key == x.key && x.id.mask == x.mask && x.id.root == x.root
    ensures x.id.duped == if i + 1 < |f.chain| then f.chain[i + 1].id else null
  {
    path, f := LeafOf(h.tree, x);
    h.Focus(path, f);
    i := ChainIndex(f.key, f.chain, x);
    assert EntryWired(f.key, f.chain, i, Above(path, |path|, h.top));
  }

  // Entry j, with the next one, as the links show it while the visitor is at work.
  lemma EntryHere(h: RadixHead, s0: set<RItem>, key: Key, chain: seq<REntry>, j: nat, goes: set<RadixNode>)
    requires h.Valid() && ChainOf(s0, key, chain, h.width) && j < |chain|
        && LeftOver(Items(h.tree), s0, key, chain, j, goes)
    ensures var n := chain[j].id;
      && n.key == key && n.mask == chain[j].mask && n.root == chain[j].root && |key| == h.width
      && n.duped == if j + 1 < |chain| then chain[j + 1].id else null
  {
    hide RadixHead.Valid, Plug, Items;
    var x := ItemOf(key, chain[j]);
    StillThere(Items(h.tree), s0, key, chain, j, goes, h.width, j);
    var path, f, i := Found(h, x);
    var c := f.chain;
    if j + 1 < |chain| {
      var y := ItemOf(key, chain[j + 1]);
      StillThere(Items(h.tree), s0, key, chain, j, goes, h.width, j + 1);
      InOneLeaf(h, path, f, y);
      var k := ChainIndex(key, c, y);
      if i + 1 < k { Between(h, s0, key, chain, j, path, f, i + 1); }
    } else if i + 1 < |c| {
      Between(h, s0, key, chain, j, path, f, i + 1);
    }
  }

  // No entry of the key has a rank between two neighbours of the chain.
  lemma Between(h: RadixHead, s0: set<RItem>, key: Key, chain: seq<REntry>, j: nat, path: RPath, f: RTree, i: nat)
    requires h.Valid() && h.tree == Plug(path, f) && f.Leaf? && f.key == key && i < |f.chain|
    requires ChainOf(s0, key, chain, h.width) && j < |chain| && Items(h.tree) <= s0
    requires Rank(chain[j].mask, h.width) > Rank(f.chain[i].mask, h.width)
    ensures j + 1 < |chain| && Rank(f.chain[i].mask, h.width) <= Rank(chain[j + 1].mask, h.width)
  {
    var x := ItemOf(key, f.chain[i]);
    assert x in Items(f) by { assert f.chain[i] in f.chain; }
    PlugItems(path, f);
    var k := ChainIndex(key, chain, x);
    assert k > j;
  }

  lemma InOneLeaf(h: RadixHead, path: RPath, f: RTree, x: RItem)
    requires h.Valid() && h.tree == Plug(path, f) && f.Leaf? && x in Items(h.tree) && x.key == f.key
    ensures x in ChainItems(f.key, f.chain)
  {
    LeavesPlug(path, f);
    var k := |Before(path)|;
    assert Leaves(h.tree)[k] == f;
    var i := Placed(h.tree, h.width, k, x);
  }

  // The deletion of a route by its key and mask takes out that very route.
  lemma ThisVictim(s: set<RItem>, s0: set<RItem>, key: Key, chain: seq<REntry>, w: nat, j: nat, x: RItem)
    requires ChainOf(s0, key, chain, w) && s <= s0 && AllItemsOk(s0, w) && j < |chain| && |key| == w
    requires ItemOf(key, chain[j]) in s && !chain[j].root
    ensures Victim(s, ItemOf(key, chain[j]), key, chain[j].mask)
    ensures Victim(s, x, key, chain[j].mask) ==> x == ItemOf(key, chain[j])
  {
    var y := ItemOf(key, chain[j]);
    forall z | z in s && z.key == key ensures Rank(z.mask, w) <= w + 1 && (z.mask == y.mask ==> z == y) {
      assert ItemOk(z, w);
      var k := ChainIndex(key, chain, z);
    }
  }

  // One call of the visitor, which may delete the route it is shown.
  method Visit(h: RadixHead, rn: RadixNode, goes: set<RadixNode>,
               ghost s0: set<RItem>, ghost key: Key, ghost chain: seq<REntry>, ghost j: nat)
    requires h.Valid() && ChainOf(s0, key, chain, h.width) && j < |chain|
        && LeftOver(Items(h.tree), s0, key, chain, j, goes)
    requires AllItemsOk(s0, h.width) && rn == chain[j].id && !chain[j].root
    modifies h, h.repr
    ensures h.Valid() && h.repr <= old(h.repr) && LeftOver(Items(h.tree), s0, key, chain, j + 1, goes)
  {
    hide RadixHead.Valid, Items, ChainOf, AllItemsOk, Shown;
    EntryHere(h, s0, key, chain, j, goes);
    ghost var s, x := Items(h.tree), ItemOf(key, chain[j]);
    StillThere(s, s0, key, chain, j, goes, h.width, j);
    OneMoreShown(s0, key, chain, j, goes);
    if rn in goes {
      var res := h.DeleteRoute(rn.key, rn.mask);
      OutOf(s, Items(h.tree), s0, key, chain, h.width, j, res);
    }
  }

  lemma OneMoreShown(s0: set<RItem>, key: Key, chain: seq<REntry>, j: nat, goes: set<RadixNode>)
    requires j < |chain|
    ensures var x := ItemOf(key, chain[j]);
      Gone(Shown(key, chain[..j + 1]), goes)
      == Gone(Shown(key, chain[..j]), goes) + (if chain[j].root || x.id !in goes then {} else {x})
  {
    assert chain[..j + 1] == chain[..j] + [chain[j]];
    ShownSnoc(key, chain[..j], chain[j]);
  }

  lemma OutOf(s: set<RItem>, s': set<RItem>, s0: set<RItem>, key: Key, chain: seq<REntry>, w: nat, j: nat,
              res: RadixNode?)
    requires ChainOf(s0, key, chain, w) && s <= s0 && AllItemsOk(s0, w) && j < |chain| && |key| == w
    requires ItemOf(key, chain[j]) in s && !chain[j].root
    requires res == null ==> forall y :: y in s ==> !Victim(s, y, key, chain[j].mask)
    requires res != null ==> Deleted(s, s', res, key, chain[j].mask)
    ensures s' == s - {ItemOf(key, chain[j])}
  {
    hide ChainOf, AllItemsOk, Victim;
    var x := ItemOf(key, chain[j]);
    ThisVictim(s, s0, key, chain, w, j, x);
    var z :| z in s && Victim(s, z, key, chain[j].mask) && z.id == res && s' == s - {z};
    ThisVictim(s, s0, key, chain, w, j, z);
  }

  // Process the leaves of one key: the successor is read before the visitor is called.
  method WalkChain(h: RadixHead, head: RadixNode, goes: set<RadixNode>, ghost key: Key, ghost chain: seq<REntry>)
    returns (visited: seq<RadixNode>)
    requires h.Valid() && ChainOf(Items(h.tree), key, chain, h.width) && chain != [] && head == chain[0].id
    modifies h, h.repr
    ensures h.Valid() && h.repr <= old(h.repr) && Items(h.tree) == old(Items(h.tree)) - Gone(Shown(key, chain), goes)
    ensures visited == Ids(Shown(key, chain))
  {
    hide RadixHead.Valid, Items, ChainOf, AllItemsOk, Shown;
    var rn: RadixNode? := head;
    visited := [];
    ghost var s0, j := Items(h.tree), 0;
    ItemsFit(h);
    NoneShown(s0, key, chain, goes);
    while rn != null
      invariant j <= |chain| && rn == if j < |chain| then chain[j].id else null
      invariant h.Valid() && h.repr <= old(h.repr) && LeftOver(Items(h.tree), s0, key, chain, j, goes)
      invariant visited == Ids(Shown(key, chain[..j]))
      decreases |chain| - j
    {
      EntryHere(h, s0, key, chain, j, goes);
      var base := rn.duped;
      OneMoreShown(s0, key, chain, j, goes);
      IdsStep(key, chain, j);
      if !rn.root {
        visited := visited + [rn];
        Visit(h, rn, goes, s0, key, chain, j);
      }
      rn := base;
      j := j + 1;
    }
    assert chain[..j] == chain;
  }

  function Ids(order: seq<RItem>): seq<RadixNode> { seq(|order|, i requires 0 <= i < |order| => order[i].id) }

  lemma ItemsFit(h: RadixHead)
    requires h.Valid()
    ensures AllItemsOk(Items(h.tree), h.width)
  {
    TreeItemsOk(h.tree, h.width, -1);
  }

  lemma NoneShown(s0: set<RItem>, key: Key, chain: seq<REntry>, goes: set<RadixNode>)
    ensures chain[..0] == [] && Shown(key, []) == [] && LeftOver(s0, s0, key, chain, 0, goes)
  {
  }

  lemma IdsStep(key: Key, chain: seq<REntry>, j: nat)
    requires j < |chain|
    ensures Ids(Shown(key, chain[..j + 1])) == Ids(Shown(key, chain[..j]))
        + (if chain[j].root then [] else [chain[j].id])
  {
    assert chain[..j + 1] == chain[..j] + [chain[j]];
    ShownSnoc(key, chain[..j], chain[j]);
  }

  // ---- the whole walk -----------------------------------------------------------------------------------

  // By the keys, the routes of one key from the most to the least specific.
  ghost predicate Prior(x: RItem, y: RItem, w: nat) {
    KeyLess(x.key, y.key) || (x.key == y.key && Rank(x.mask, w) > Rank(y.mask, w))
  }

  ghost predicate InOrder(order: seq<RItem>, w: nat) {
    forall i, j :: 0 <= i < j < |order| ==> Prior(order[i], order[j], w)
  }

  ghost predicate ShownBelow(order: seq<RItem>, s0: set<RItem>, key: Key) {
    && (forall x :: x in order ==> x in s0 && !x.root && KeyLess(x.key, key))
    && (forall x :: x in s0 && !x.root && KeyLess(x.key, key) ==> x in order)
  }

  lemma {:induction false} ShownInOrder(key: Key, chain: seq<REntry>, w: nat)
    requires ChainSorted(chain, w)
    ensures InOrder(Shown(key, chain), w)
  {
    if chain != [] {
      ShownInOrder(key, chain[1..], w);
      forall x | x in Shown(key, chain[1..]) ensures Prior(ItemOf(key, chain[0]), x, w) {
        ShownMember(key, chain[1..], x);
        var k := ChainIndex(key, chain[1..], x);
        assert chain[1..][k] == chain[k + 1];
      }
    }
  }

  // What has been shown, and then the routes of the next key.
  lemma ShownMore(order: seq<RItem>, s0: set<RItem>, s: set<RItem>, goes: set<RadixNode>, key: Key,
                  chain: seq<REntry>, key': Key, w: nat)
    requires ShownBelow(order, s0, key) && InOrder(order, w) && s == s0 - Gone(order, goes) && ChainOf(s, key, chain, w)
    requires KeyLess(key, key')
    requires forall x :: x in s ==> (KeyLess(x.key, key') <==> KeyLess(x.key, key) || x.key == key)
    ensures ShownBelow(order + Shown(key, chain), s0, key') && InOrder(order + Shown(key, chain), w)
  {
    var more := Shown(key, chain);
    ShownInOrder(key, chain, w);
    forall x | x in order + more ensures x in s0 && !x.root && KeyLess(x.key, key') {
      ShownMember(key, chain, x);
      if x in order { LessTrans(x.key, key, key'); }
    }
    forall x | x in s0 && !x.root && KeyLess(x.key, key') ensures x in order + more {
      ShownMember(key, chain, x);
      assert x in Gone(order, goes) || x in s;
    }
    forall i, j | 0 <= i < |order| && 0 <= j < |more| ensures Prior(order[i], more[j], w) {
      assert order[i] in order && more[j] in more;
      ShownMember(key, chain, more[j]);
    }
  }

  lemma GoneJoin(a: seq<RItem>, b: seq<RItem>, goes: set<RadixNode>)
    ensures Gone(a + b, goes) == Gone(a, goes) + Gone(b, goes) && Ids(a + b) == Ids(a) + Ids(b)
  {
  }

  // The leaf and the one after it, with nothing in between.
  lemma Gap(h: RadixHead, path: RPath, leaf: RTree, path': RPath, leaf': RTree)
    requires h.Valid() && h.tree == Plug(path, leaf) && leaf.Leaf? && leaf'.Leaf?
        && After(path) == [leaf'] + After(path')
    ensures KeyLess(leaf.key, leaf'.key)
    ensures forall x :: x in Items(h.tree) ==>
      (KeyLess(x.key, leaf'.key) <==> KeyLess(x.key, leaf.key) || x.key == leaf.key)
  {
    hide Items, KeyLess, TreeOk;
    LeavesPlug(path, leaf);
    var t, k := h.tree, |Before(path)|;
    OneLeaf(leaf);
    assert Leaves(t)[k] == leaf && Leaves(t)[k + 1] == leaf';
    LeavesAscend(t, h.width, -1);
    forall x | x in Items(t) ensures KeyLess(x.key, leaf'.key) <==> KeyLess(x.key, leaf.key) || x.key == leaf.key {
      var i := Placed(t, h.width, k, x);
      i := Placed(t, h.width, k + 1, x);
    }
  }

  lemma ChainHere(h: RadixHead, path: RPath, leaf: RTree)
    requires h.Valid() && h.tree == Plug(path, leaf) && leaf.Leaf?
    ensures ChainOf(Items(h.tree), leaf.key, leaf.chain, h.width) && leaf.chain != [] && |leaf.key| == h.width
  {
    h.Focus(path, leaf);
    forall x | x in Items(h.tree) && x.key == leaf.key ensures x in ChainItems(leaf.key, leaf.chain) {
      InOneLeaf(h, path, leaf, x);
    }
  }

  ghost predicate Heads(s: set<RItem>, y: RItem, w: nat) {
    y in s && forall z :: z in s && z.key == y.key ==> Rank(z.mask, w) <= Rank(y.mask, w)
  }

  // The most specific route of a key is the head of its leaf; it is a root leaf just for the last key.
  lemma HeadHere(h: RadixHead, y: RItem) returns (path: RPath, leaf: RTree)
    requires h.Valid() && Heads(Items(h.tree), y, h.width) && y.key != Zeros(h.width)
    ensures h.tree == Plug(path, leaf) && leaf.Leaf? && leaf.key == y.key && RootOf(leaf) == y.id
    ensures y.id.root <==> y.key == Ones(h.width)
  {
    var i;
    path, leaf, i := Found(h, y);
    ChainHere(h, path, leaf);
    var head := ItemOf(leaf.key, leaf.chain[0]);
    assert head in ChainItems(leaf.key, leaf.chain) by { assert leaf.chain[0] in leaf.chain; }
    assert i == 0;
    if y.key == Ones(h.width) {
      var o :| o in Items(h.tree) && o.root && o.key == Ones(h.width);
      var k := ChainIndex(leaf.key, leaf.chain, o);
      ItemsFit(h);
      assert ItemOk(y, h.width) && o.mask == Host;
      assert k == 0;
    }
  }

  lemma HeadOf(h: RadixHead, path: RPath, leaf: RTree)
    requires h.Valid() && h.tree == Plug(path, leaf) && leaf.Leaf?
    ensures leaf.chain != [] && Heads(Items(h.tree), ItemOf(leaf.key, leaf.chain[0]), h.width)
        && RootOf(leaf) == leaf.chain[0].id
  {
    ChainHere(h, path, leaf);
    var y := ItemOf(leaf.key, leaf.chain[0]);
    assert y in ChainItems(leaf.key, leaf.chain) by { assert leaf.chain[0] in leaf.chain; }
    forall z | z in Items(h.tree) && z.key == leaf.key ensures Rank(z.mask, h.width) <= Rank(y.mask, h.width) {
      var k := ChainIndex(leaf.key, leaf.chain, z);
    }
  }

  // The first leaf holds the zero key.
  lemma FirstLeaf(h: RadixHead, path: RPath, leaf: RTree)
    requires h.Valid() && h.tree == Plug(path, leaf) && leaf.Leaf? && Before(path) == []
    ensures leaf.key != Ones(h.width) && ShownBelow([], Items(h.tree), leaf.key)
  {
    LeavesPlug(path, leaf);
    OneLeaf(leaf);
    assert Leaves(h.tree)[0] == leaf;
    forall x | x in Items(h.tree) ensures !KeyLess(x.key, leaf.key) { var i := Placed(h.tree, h.width, 0, x); }
    var z :| z in Items(h.tree) && z.root && z.key == Zeros(h.width);
    OnesLast(z.key, h.width);
    assert Zeros(h.width)[0] != Ones(h.width)[0];
  }

  // What the walk shows: every route once, in order, but none of the all-ones key.
  ghost predicate Walked(order: seq<RItem>, s0: set<RItem>, w: nat) {
    && InOrder(order, w)
    && (forall x :: x in order ==> x in s0 && !x.root && x.key != Ones(w))
    && (forall x :: x in s0 && !x.root && x.key != Ones(w) ==> x in order)
  }

  lemma WalkDone(order: seq<RItem>, s0: set<RItem>, w: nat)
    requires ShownBelow(order, s0, Ones(w)) && InOrder(order, w) && AllItemsOk(s0, w)
    ensures Walked(order, s0, w)
  {
    forall x | x in s0 ensures KeyLess(x.key, Ones(w)) <==> x.key != Ones(w) {
      assert ItemOk(x, w);
      OnesLast(x.key, w);
    }
  }

  ghost function Beyond(s: set<RItem>, key: Key): set<RItem> { set x | x in s && KeyLess(key, x.key) }

  lemma LessBeyond(s: set<RItem>, key: Key, y: RItem)
    requires y in s && KeyLess(key, y.key)
    ensures Beyond(s, y.key) < Beyond(s, key)
  {
    NotLessSelf(y.key);
    forall x | x in s && KeyLess(y.key, x.key) ensures KeyLess(key, x.key) { LessTrans(key, y.key, x.key); }
    assert y in Beyond(s, key) && y !in Beyond(s, y.key);
  }

  // The deletions of one key do not touch the head of another.
  lemma StillHead(s: set<RItem>, s': set<RItem>, y: RItem, key: Key, chain: seq<REntry>, goes: set<RadixNode>, w: nat)
    requires Heads(s, y, w) && y.key != key && s' == s - Gone(Shown(key, chain), goes)
    ensures Heads(s', y, w)
  {
    ShownMember(key, chain, y);
  }

  lemma StartTop(h: RadixHead)
    requires h.Valid()
    ensures h.tree == Plug([], h.tree) && RootOf(h.tree) == h.top && Before<RadixNode>([]) == []
  {
  }

  lemma Nothing(s0: set<RItem>, goes: set<RadixNode>, w: nat)
    ensures s0 == s0 - Gone([], goes) && Ids([]) == [] && InOrder([], w)
  {
  }

  // One leaf's share of the walk; done: the next leaf is the root leaf at the end.
  method WalkLeaf(h: RadixHead, rn: RadixNode, goes: set<RadixNode>, ghost s0: set<RItem>,
                  ghost path: RPath, ghost leaf: RTree, ghost order: seq<RItem>)
    returns (next: RadixNode, more: seq<RadixNode>, done: bool, ghost path': RPath, ghost leaf': RTree,
             ghost order': seq<RItem>)
    requires h.Valid() && h.tree == Plug(path, leaf) && leaf.Leaf? && rn == RootOf(leaf) && leaf.key != Ones(h.width)
    requires Items(h.tree) == s0 - Gone(order, goes) && InOrder(order, h.width) && ShownBelow(order, s0, leaf.key)
    modifies h, h.repr
    ensures h.Valid() && h.repr <= old(h.repr) && Items(h.tree) == s0 - Gone(order', goes) && InOrder(order', h.width)
    ensures Ids(order') == Ids(order) + more
    ensures if done then ShownBelow(order', s0, Ones(h.width)) else
        && h.tree == Plug(path', leaf') && leaf'.Leaf? && next == RootOf(leaf') && leaf'.key != Ones(h.width)
        && ShownBelow(order', s0, leaf'.key) && Beyond(s0, leaf'.key) < Beyond(s0, leaf.key)
  {
    hide RadixHead.Valid, Items, KeyLess, Plug, ShownBelow, InOrder, ChainOf, Shown, Gone, Ids, Heads;
    next, path', leaf' := NextLeaf(h, rn, path, leaf);
    ghost var s, w, key, chain := Items(h.tree), h.width, leaf.key, leaf.chain;
    Gap(h, path, leaf, path', leaf');
    ChainHere(h, path, leaf);
    ChainHere(h, path', leaf');
    HeadOf(h, path', leaf');
    HeadOf(h, path, leaf);
    ghost var y := ItemOf(leaf'.key, leaf'.chain[0]);
    order' := order + Shown(key, chain);
    ShownMore(order, s0, s, goes, key, chain, y.key, w);
    GoneJoin(order, Shown(key, chain), goes);
    NotLessSelf(y.key);
    OnesLast(key, w);
    HeadIn(s, y, w);
    LessBeyond(s0, key, y);
    more := WalkChain(h, rn, goes, key, chain);
    StillHead(s, Items(h.tree), y, key, chain, goes, w);
    path', leaf' := HeadHere(h, y);
    done := next.root;
  }

  lemma HeadIn(s: set<RItem>, y: RItem, w: nat)
    requires Heads(s, y, w)
    ensures y in s
  {
  }

  // rn_walktree for a visitor that deletes the routes in goes and reports no error.
  method WalkTree(h: RadixHead, goes: set<RadixNode>) returns (visited: seq<RadixNode>, ghost order: seq<RItem>)
    requires h.Valid()
    modifies h, h.repr
    ensures h.Valid() && Walked(order, old(Items(h.tree)), h.width) && visited == Ids(order)
    ensures Items(h.tree) == old(Items(h.tree)) - Gone(order, goes)
  {
    hide RadixHead.Valid, Items, KeyLess, Plug, ShownBelow, InOrder, ChainOf, AllItemsOk, Shown, Gone, Ids, Walked;
    ghost var s0, path, leaf := Items(h.tree), [], h.tree;
    ItemsFit(h);
    var rn := h.top;
    StartTop(h);
    rn, path, leaf := GoLeft(h, rn, path, leaf);
    FirstLeaf(h, path, leaf);
    visited, order := [], [];
    Nothing(s0, goes, h.width);
    var done := false;
    while !done
      invariant h.Valid() && h.repr <= old(h.repr) && Items(h.tree) == s0 - Gone(order, goes) && visited == Ids(order)
      invariant InOrder(order, h.width)
      invariant if done then ShownBelow(order, s0, Ones(h.width)) else
          && h.tree == Plug(path, leaf) && leaf.Leaf? && rn == RootOf(leaf) && leaf.key != Ones(h.width)
          && ShownBelow(order, s0, leaf.key)
      decreases !done, if done then {} else Beyond(s0, leaf.key)
    {
      var more;
      rn, more, done, path, leaf, order := WalkLeaf(h, rn, goes, s0, path, leaf, order);
      visited := visited + more;
    }
    WalkDone(order, s0, h.width);
  }

  lemma Inhabited(order: seq<RItem>)
    ensures order != [] ==> exists x :: x in order
  {
    if order != [] { assert order[0] in order; }
  }

  lemma OnesNotShown(order: seq<RItem>, s: set<RItem>, x: RItem, w: nat)
    requires Walked(order, s + {x}, w) && x.key == Ones(w) && forall y :: y in s ==> y.root
    ensures order == [] && Ids(order) == []
  {
    Inhabited(order);
  }

  // A run: the one route of the table is not shown.
  method LastMissed(w: nat) returns (h: RadixHead, visited: seq<RadixNode>)
    requires w > 0 && w % 8 == 0
    ensures h.Valid() && visited == [] && HasRoute(Items(h.tree), Ones(w), Net(w))
  {
    hide RadixHead.Valid, Items;
    var nodes;
    ghost var s, order;
    h, nodes, s := OneRoute(w, Ones(w), Net(w));
    ghost var x := Item(Ones(w), Net(w), false, nodes);
    visited, order := WalkTree(h, {});
    OnesNotShown(order, s, x, w);
    assert x in Items(h.tree);
  }
}
