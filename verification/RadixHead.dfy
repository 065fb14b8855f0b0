// The routing table of netinet/radix.c: lookup, insertion and deletion on linked nodes.

module RadixHeads {
  import opened RadixTree
  import opened RadixNodes
  import opened RadixEdits
  import opened RadixSteps
  import opened RadixGrowth
  import opened RadixInserts
  import opened RadixDeletes
  import opened RadixSlots

  // The two root leaves that rn_inithead puts in stay there and are the only ones.
  ghost predicate RootsOk(s: set<RItem>, w: nat) {
    && (exists x :: x in s && x.root && x.key == Zeros(w))
    && (exists x :: x in s && x.root && x.key == Ones(w))
    && (forall x :: x in s && x.root ==> x.mask == Host && (x.key == Zeros(w) || x.key == Ones(w)))
  }

  ghost predicate HasRoute(s: set<RItem>, key: Key, m: Mask) {
    exists y :: y in s && y.key == key && y.mask == m
  }

  // What rn_delete takes out: the route with the given mask, or without a mask the most specific
  // route of the key, if that is not a root leaf.
  ghost predicate Victim(s: set<RItem>, x: RItem, v: Key, m: Mask) {
    && x in s && x.key == v && !x.root
    && match m
       case Net(_) => x.mask == m
       case Host => forall y :: y in s && y.key == v ==> Rank(y.mask, |v|) <= Rank(x.mask, |v|)
  }

  ghost predicate Deleted(s: set<RItem>, s': set<RItem>, n: RadixNode, v: Key, m: Mask) {
    exists x :: x in s && Victim(s, x, v, m) && x.id == n && s' == s - {x}
  }

  ghost predicate IsBest(s: set<RItem>, n: RadixNode, v: Key) {
    exists x :: x in s && x.id == n && Best(s, x, v)
  }

  ghost predicate SomeMatch(s: set<RItem>, v: Key) {
    exists x :: x in s && Matches(x, v)
  }

  // The answer of a linear search: the best match, or no route at all.
  ghost predicate LinearAnswer(s: set<RItem>, n: RadixNode?, isRoot: bool, v: Key) {
    if SomeMatch(s, v) then n != null && !isRoot && IsBest(s, n, v) else n == null || isRoot
  }

  // The one family of lookups that miss: the all-ones key when it ends in its bare root leaf.
  ghost predicate ShadowedByOnes(s: set<RItem>, v: Key) {
    && v == Ones(|v|)
    && (forall x :: x in s && !x.root ==> x.key != v)
    && SomeMatch(s, v)
  }

  // Compares the first limit bytes; when they differ, d is the first bit that does.
  method CompareBytes(v: Key, key: Key, limit: nat) returns (same: bool, d: nat)
    requires |v| == |key| && 8 * limit <= |v|
    ensures same ==> v[..8 * limit] == key[..8 * limit]
    ensures !same ==> d < 8 * limit && FirstDiff(v, key, d)
  {
    var i := 0;
    while i < limit && v[8 * i..8 * i + 8] == key[8 * i..8 * i + 8]
      invariant i <= limit && v[..8 * i] == key[..8 * i]
    {
      assert v[..8 * i + 8] == v[..8 * i] + v[8 * i..8 * i + 8];
      assert key[..8 * i + 8] == key[..8 * i] + key[8 * i..8 * i + 8];
      i := i + 1;
    }
    if i == limit {
      return true, 0;
    }
    var b := 7;
    while v[8 * i..8 * i + b] != key[8 * i..8 * i + b]
      invariant 0 <= b <= 7
      invariant v[8 * i..8 * i + b + 1] != key[8 * i..8 * i + b + 1]
      decreases b
    {
      b := b - 1;
    }
    same, d := false, 8 * i + b;
    assert v[..d] == v[..8 * i] + v[8 * i..d] && key[..d] == key[..8 * i] + key[8 * i..d];
    assert v[8 * i..d + 1] == v[8 * i..d] + [v[d]] && key[8 * i..d + 1] == key[8 * i..d] + [key[d]];
  }

  ghost function InitialTree(w: nat, t: RadixNode, tt: RadixNode, ttt: RadixNode): RTree {
    Node(t, [], [], Leaf(Zeros(w), [Entry(tt, Host, true, false)]), Leaf(Ones(w), [Entry(ttt, Host, true, false)]))
  }

  ghost predicate First(w: nat, t: RadixNode, tt: RadixNode, ttt: RadixNode)
    reads t, tt, ttt
  {
    && t != tt && tt != ttt && ttt != t && tt.twin == t && ttt.twin == null
    && t.b == 0 && t.mklist == [] && t.l == tt && t.r == ttt && t.p == t && t.active && t.root
    && tt.IsRootLeaf(Zeros(w), t) && ttt.IsRootLeaf(Ones(w), t)
  }

  // The internal node and the two root leaves that a tree begins with.
  method FirstNodes(w: nat) returns (t: RadixNode, tt: RadixNode, ttt: RadixNode)
    ensures fresh({t, tt, ttt}) && First(w, t, tt, ttt)
  {
    t := new RadixNode(null);
    tt := new RadixNode.RootLeaf(Zeros(w), t, t);
    ttt := new RadixNode.RootLeaf(Ones(w), t, null);
    t.SetTop(tt, ttt);
  }

  lemma FreshTree(w: nat, t: RadixNode, tt: RadixNode, ttt: RadixNode)
    requires w > 0
    ensures var f := InitialTree(w, t, tt, ttt);
      TreeOk(f, w, -1) && RootsOk(Items(f), w) && (forall x :: x in Items(f) ==> x.root) && Objs(f) == {t, tt, ttt}
  {
    var f := InitialTree(w, t, tt, ttt);
    assert Items(f.l) == {Item(Zeros(w), Host, true, tt)};
    assert Items(f.r) == {Item(Ones(w), Host, true, ttt)};
    assert f.pre + [false] <= Zeros(w) && f.pre + [true] <= Ones(w);
    assert Item(Zeros(w), Host, true, tt) in Items(f) && Item(Ones(w), Host, true, ttt) in Items(f);
  }

  lemma FreshSlots(w: nat, t: RadixNode, tt: RadixNode, ttt: RadixNode)
    requires First(w, t, tt, ttt)
    ensures var f := InitialTree(w, t, tt, ttt);
      SlotsOk(Items(f), Internals(f), t) && Internals(f) == {t}
      && Items(f) == {Item(Zeros(w), Host, true, tt), Item(Ones(w), Host, true, ttt)}
  {
    var f := InitialTree(w, t, tt, ttt);
    assert Items(f.l) == {Item(Zeros(w), Host, true, tt)} by { assert f.l.chain[0] in f.l.chain; }
    assert Items(f.r) == {Item(Ones(w), Host, true, ttt)} by { assert f.r.chain[0] in f.r.chain; }
  }

  lemma FreshFlags(w: nat, t: RadixNode, tt: RadixNode, ttt: RadixNode)
    requires First(w, t, tt, ttt)
    ensures FlagsOk({Item(Zeros(w), Host, true, tt), Item(Ones(w), Host, true, ttt)}, {t}, {t, tt, ttt})
  {
  }

  lemma FreshWired(w: nat, t: RadixNode, tt: RadixNode, ttt: RadixNode)
    requires First(w, t, tt, ttt)
    ensures var f := InitialTree(w, t, tt, ttt); f.Node? && f.n == t && f.pre == [] && Sub(f, t, {t, tt, ttt})
  {
    var f := InitialTree(w, t, tt, ttt);
    assert f.l.chain[0].id == tt && f.r.chain[0].id == ttt;
    assert Objs(f.l) == {tt} && Objs(f.r) == {ttt};
    assert Wired(f.l, t) && Wired(f.r, t);
  }

  ghost function StepFrame(f: RTree, right: bool): Frame<RadixNode>
    requires f.Node?
  {
    Frame(f.n, f.pre, f.anns, right, if right then f.l else f.r)
  }

  ghost function StepInto(f: RTree, right: bool): RTree
    requires f.Node?
  {
    if right then f.r else f.l
  }

  lemma StepDown(path: RPath, f: RTree, v: Key, w: nat)
    requires f.Node? && TreeOk(f, w, Bit(path, -1)) && |v| == w && Follows(path, v)
    ensures |f.pre| < w && RootOf(f.l) != null && RootOf(f.r) != null
    ensures var q, g := path + [StepFrame(f, v[|f.pre|])], StepInto(f, v[|f.pre|]);
      Plug(q, g) == Plug(path, f) && TreeOk(g, w, Bit(q, -1)) && Follows(q, v) && Above(q, |q|, f.n) == f.n
  {
    PlugSnoc(path, StepFrame(f, v[|f.pre|]), StepInto(f, v[|f.pre|]));
  }

  // A route with the empty mask has the zero key, so it lies to the left of every node.
  lemma LeftOfZeroMask(path: RPath, f: RTree, it: RItem, w: nat)
    requires f.Node? && TreeOk(f, w, Bit(path, -1)) && it in Items(f) && it.mask == Net(0)
    ensures it in Items(f.l) && RootOf(f.l) != null
    ensures Plug(path + [StepFrame(f, false)], f.l) == Plug(path, f)
  {
    PlugSnoc(path, StepFrame(f, false), f.l);
    TreeItemsOk(f, w, Bit(path, -1));
    assert ItemOk(it, w);
    forall x | x in Items(f.r) ensures |f.pre| < |x.key| && x.key[|f.pre|] {
      assert f.pre + [true] <= x.key;
    }
  }

  lemma ArriveAtLeaf(path: RPath, leaf: RTree, v: Key, w: nat)
    requires leaf.Leaf? && TreeOk(Plug(path, leaf), w, -1) && |v| == w && Follows(path, v)
    ensures AtLeaf(path, leaf.key, leaf.chain, v, w)
  {
    PlugOk(path, leaf, w, -1);
    TreeItemsOk(Plug(path, leaf), w, -1);
    PlugItems(path, leaf);
  }

  lemma NoSuchKey(path: RPath, leaf: RTree, v: Key, w: nat)
    requires leaf.Leaf? && AtLeaf(path, leaf.key, leaf.chain, v, w) && leaf.key != v
    ensures forall y :: y in SibItems(path) + Items(leaf) ==> y.key != v
  {
    forall y | y in SibItems(path) + Items(leaf) && y.key == v ensures false {
      KeyFound(path, leaf, v, w, y);
    }
  }

  lemma NotRootKey(s: set<RItem>, w: nat, v: Key)
    requires RootsOk(s, w) && |v| == w && forall y :: y in s ==> y.key != v
    ensures !RootKey(v)
  {
  }

  // All of Valid that does not concern the links.
  ghost predicate Settled(t: RTree, top: RadixNode, w: nat, idle: set<RadixNode>) {
    && t.Node? && t.n == top && t.pre == []
    && TreeOk(t, w, -1) && RootsOk(Items(t), w) && SlotsOk(Items(t), Internals(t), top)
    && Idle(Items(t), Internals(t)) <= idle
  }

  ghost predicate Ready(s: set<RItem>, ns: set<RadixNode>, top: RadixNode, w: nat, idle: set<RadixNode>) {
    SlotsOk(s, ns, top) && RootsOk(s, w) && Idle(s, ns) <= idle
  }

  // InsertNew, and what it makes of the tree as a value.
  method InsertKey(v: Key, m: Mask, t: RadixNode, tt: RadixNode, h: RadixNode, d: nat, top: RadixNode, ghost w: nat,
                   ghost path: RPath, ghost leaf: RTree, ghost objs: set<RadixNode>) returns (ghost n: RTree)
    requires Sub(Plug(path, leaf), top, objs) && path != [] && path[0].n == top && path[0].pre == []
    requires leaf.Leaf? && h == RootOf(leaf) && AtLeaf(path, leaf.key, leaf.chain, v, w)
    requires FirstDiff(v, leaf.key, d) && d < w
    requires m.Net? ==> m.len <= w && Clear(v, m.len)
    requires forall y :: y in SibItems(path) + Items(leaf) ==> y.key != v
    requires t !in objs && tt !in objs && t != tt
    modifies objs, t, tt
    ensures Sub(n, top, objs + {t, tt}) && n.Node? && n.n == top && n.pre == [] && TreeOk(n, w, -1)
    ensures Items(n) == SibItems(path) + Items(leaf) + {Item(v, m, false, tt)}
    ensures Internals(n) == Internals(Plug(path, leaf)) + {t}
  {
    ghost var k := InsertNew(v, m, t, tt, h, d, top, w, path, leaf, objs);
    NewLeafOk(path, leaf, v, w, d, k, t, tt, m);
    NewInternals(path, leaf, v, d, k, t, Item(v, m, false, tt), Leaf(v, [Placed(tt, m, d)]));
    NewTreeTop(path, leaf, v, d, k, t, tt, m);
    n := NewTree(path, leaf, v, d, k, t, tt, m);
  }

  // InsertSame, and what it makes of the tree as a value.
  method InsertMask(h: RadixNode, tt: RadixNode?, t: RadixNode, nodes: RadixNode, m: Mask, top: RadixNode, right: bool,
                    ghost i: nat, ghost w: nat, ghost path: RPath, ghost leaf: RTree, ghost objs: set<RadixNode>)
    returns (ghost n: RTree)
    requires Sub(Plug(path, leaf), top, objs) && path != [] && path[0].n == top && path[0].pre == []
    requires leaf.Leaf? && h == RootOf(leaf) && AtLeaf(path, leaf.key, leaf.chain, leaf.key, w)
    requires i <= |leaf.chain| && t == leaf.chain[if i == 0 then 0 else i - 1].id
    requires tt == (if i < |leaf.chain| then leaf.chain[i].id else null)
    requires h.p == path[|path| - 1].n && right == path[|path| - 1].right && nodes !in objs
    requires m.Net? ==> m.len <= w && Clear(leaf.key, m.len)
    requires (forall j :: 0 <= j < i ==> Rank(leaf.chain[j].mask, w) > Rank(m, w))
    requires i < |leaf.chain| ==> Rank(leaf.chain[i].mask, w) < Rank(m, w)
    requires !HasRoute(Items(leaf) + SibItems(path), leaf.key, m)
    modifies objs, nodes
    ensures Sub(n, top, objs + {nodes}) && n.Node? && n.n == top && n.pre == [] && TreeOk(n, w, -1)
    ensures Items(n) == Items(leaf) + SibItems(path) + {Item(leaf.key, m, false, nodes)}
    ensures Internals(n) == Internals(Plug(path, leaf))
  {
    DupLeafOk(path, leaf, w, i, nodes, m);
    SideOf(path, leaf, top, objs);
    InsertSame(h, tt, t, nodes, m, top, right, i, w, path, leaf, objs);
    ghost var x, e := Item(leaf.key, m, false, nodes), Placed(nodes, m, Bit(path, -1));
    DupInternals(path, leaf, i, e, x);
    LiftTop(path, x, DupLeaf(leaf, i, e));
    n := Plug(Lift(path, x), DupLeaf(leaf, i, e));
  }

  lemma RootsStay(s: set<RItem>, w: nat, x: RItem)
    requires RootsOk(s, w) && !x.root
    ensures RootsOk(s + {x}, w) && RootsOk(s - {x}, w)
  {
    var z :| z in s && z.root && z.key == Zeros(w);
    var o :| o in s && o.root && o.key == Ones(w);
    assert z in s + {x} && z in s - {x} && o in s + {x} && o in s - {x};
  }

  // The tree with its new links, and the nodes beside it that stay unused.
  lemma SettleFlags(t: RTree, top: RadixNode, objs: set<RadixNode>, repr: set<RadixNode>, idle: set<RadixNode>)
    requires Sub(t, top, objs) && objs <= repr && idle <= repr
    requires Idle(Items(t), Internals(t)) <= idle && Unused(idle)
    ensures Sub(t, top, repr) && FlagsOk(Items(t), Internals(t), repr)
  {
    TreeObjs(t);
    ActiveInternals(t, top);
    FlagsAgain(Items(t), Internals(t), repr, idle);
  }

  lemma LiftTop(q: RPath, x: RItem, f: RTree)
    requires q != []
    ensures var t := Plug(Lift(q, x), f); t.Node? && t.n == q[0].n && t.pre == q[0].pre
    ensures var t := Plug(Unlift(q, x), f); t.Node? && t.n == q[0].n && t.pre == q[0].pre
  {
  }

  lemma NewTreeTop(path: RPath, leaf: RTree, v: Key, d: nat, k: nat, t: RadixNode, tt: RadixNode, m: Mask)
    requires 0 < k <= |path| && d < |v|
    ensures var n := NewTree(path, leaf, v, d, k, t, tt, m); n.Node? && n.n == path[0].n && n.pre == path[0].pre
  {
    LiftTop(NewPath(path, leaf, v, d, k, t), Item(v, m, false, tt), Leaf(v, [Placed(tt, m, d)]));
  }

  lemma DupInternals(path: RPath, leaf: RTree, i: nat, e: REntry, x: RItem)
    requires leaf.Leaf? && i <= |leaf.chain|
    ensures Internals(Plug(Lift(path, x), DupLeaf(leaf, i, e))) == Internals(Plug(path, leaf))
  {
    PlugInternals(Lift(path, x), DupLeaf(leaf, i, e));
    LiftInternals(path, x);
    PlugInternals(path, leaf);
  }

  // A route for v is in the tree just when its mask is in the chain v leads to.
  lemma SameMaskThere(path: RPath, leaf: RTree, v: Key, w: nat, m: Mask)
    requires leaf.Leaf? && AtLeaf(path, leaf.key, leaf.chain, v, w) && leaf.key == v
    ensures (exists k :: 0 <= k < |leaf.chain| && leaf.chain[k].mask == m)
        <==> HasRoute(Items(leaf) + SibItems(path), v, m)
  {
    if exists k :: 0 <= k < |leaf.chain| && leaf.chain[k].mask == m {
      var k :| 0 <= k < |leaf.chain| && leaf.chain[k].mask == m;
      assert Item(v, m, leaf.chain[k].root, leaf.chain[k].id) in Items(leaf) by { assert leaf.chain[k] in leaf.chain; }
    }
    if exists y :: y in Items(leaf) + SibItems(path) && y.key == v && y.mask == m {
      var y :| y in Items(leaf) + SibItems(path) && y.key == v && y.mask == m;
      KeyFound(path, leaf, v, w, y);
      var k :| 0 <= k < |leaf.chain| && y == Item(v, leaf.chain[k].mask, leaf.chain[k].root, leaf.chain[k].id);
    }
  }

  // Any entry of key v sits in the leaf that v leads to.
  lemma KeyFound(path: RPath, leaf: RTree, v: Key, w: nat, x: RItem)
    requires leaf.Leaf? && AtLeaf(path, leaf.key, leaf.chain, v, w)
    requires x in Items(leaf) + SibItems(path) && x.key == v
    ensures leaf.key == v && x in Items(leaf)
  {
    forall y | y in SibItems(path) ensures y.key != v {
      var i := SibAt(path, y);
      FrameAt(path, ChainItems(leaf.key, leaf.chain), w, -1, i);
      assert path[i].pre + [!path[i].right] <= y.key;
      assert y.key[|path[i].pre|] == !path[i].right;
    }
  }

  // A lookup that ended in entry i of the leaf or in a lifted annotation is right.
  lemma BestIsRight(s: set<RItem>, x: RItem, v: Key)
    requires Best(s, x, v)
    requires v == Ones(|v|) ==> exists y :: y in s && !y.root && y.key == v
    ensures LinearAnswer(s, x.id, false, v) && !ShadowedByOnes(s, v)
  {
  }

  lemma BareRoot(path: RPath, leaf: RTree, v: Key, w: nat)
    requires leaf.Leaf? && AtLeaf(path, leaf.key, leaf.chain, v, w) && leaf.key == v
    requires |leaf.chain| == 1 && leaf.chain[0].root
    requires v == Zeros(w) || v == Ones(w)
    ensures ShadowedByOnes(Items(leaf) + SibItems(path), v) <==> SomeMatch(Items(leaf) + SibItems(path), v)
  {
    var s := Items(leaf) + SibItems(path);
    if SomeMatch(s, v) {
      var x :| x in s && Matches(x, v);
      assert x !in Items(leaf);
      var i := Elsewhere(path, leaf.key, leaf.chain, v, w, x);
      assert v == Ones(w);
      forall y | y in s && !y.root ensures y.key != v {
        if y.key == v { KeyFound(path, leaf, v, w, y); }
      }
    }
  }

  lemma OnesFound(path: RPath, leaf: RTree, v: Key, w: nat)
    requires leaf.Leaf? && AtLeaf(path, leaf.key, leaf.chain, v, w)
    requires RootsOk(Items(leaf) + SibItems(path), w) && v == Ones(w)
    ensures leaf.key == v
  {
    var x :| x in Items(leaf) + SibItems(path) && x.root && x.key == Ones(w);
    KeyFound(path, leaf, v, w, x);
  }

  // The head of the chain is the answer; after a root leaf it is the next entry, if there is one.
  ghost predicate SameAnswer(s: set<RItem>, chain: seq<REntry>, v: Key)
    requires chain != []
  {
    if !chain[0].root then LinearAnswer(s, chain[0].id, false, v) && !ShadowedByOnes(s, v)
    else if |chain| > 1 then LinearAnswer(s, chain[1].id, false, v) && !ShadowedByOnes(s, v)
    else LinearAnswer(s, chain[0].id, true, v) <==> !ShadowedByOnes(s, v)
  }

  // v agrees with the leaf's key on all bytes of the mask at the head of its chain.
  lemma SameAtLeaf(path: RPath, leaf: RTree, v: Key, w: nat, lim: nat)
    requires leaf.Leaf? && AtLeaf(path, leaf.key, leaf.chain, v, w)
    requires RootsOk(Items(leaf) + SibItems(path), w)
    requires lim <= w && v[..lim] == leaf.key[..lim]
    requires match leaf.chain[0].mask case Host => lim == w case Net(len) => len <= lim
    ensures SameAnswer(Items(leaf) + SibItems(path), leaf.chain, v)
  {
    hide LinearAnswer, ShadowedByOnes, PathOk, Follows, AllItemsOk;
    var s, key, chain := Items(leaf) + SibItems(path), leaf.key, leaf.chain;
    if v == Ones(w) { OnesFound(path, leaf, v, w); }
    var x := Item(key, chain[0].mask, chain[0].root, chain[0].id);
    assert x in s && EntryOk(key, chain[0], Bit(path, -1)) by { assert chain[0] in chain; }
    assert v[..w] == v && key[..w] == key;
    if !chain[0].root {
      if x.mask.Net? { assert key[..x.mask.len] == key[..lim][..x.mask.len] == v[..x.mask.len]; }
      ChainIsBest(path, key, chain, v, w, 0);
      BestIsRight(s, x, v);
    } else if |chain| > 1 {
      var y := Item(key, chain[1].mask, chain[1].root, chain[1].id);
      assert y in s && EntryOk(key, chain[1], Bit(path, -1)) by { assert chain[1] in chain; }
      assert Rank(chain[0].mask, w) > Rank(chain[1].mask, w);
      ChainIsBest(path, key, chain, v, w, 1);
      BestIsRight(s, y, v);
    } else {
      BareAnswer(path, leaf, v, w);
    }
  }

  lemma BareAnswer(path: RPath, leaf: RTree, v: Key, w: nat)
    requires leaf.Leaf? && AtLeaf(path, leaf.key, leaf.chain, v, w) && leaf.key == v
    requires |leaf.chain| == 1 && leaf.chain[0].root
    requires v == Zeros(w) || v == Ones(w)
    ensures var s := Items(leaf) + SibItems(path);
      LinearAnswer(s, leaf.chain[0].id, true, v) <==> !ShadowedByOnes(s, v)
  {
    BareRoot(path, leaf, v, w);
  }

  // With d the first differing bit, a net route at the leaf covers v just when its index is at most d.
  lemma CoversIff(key: Key, e: REntry, v: Key, d: nat, up: int)
    requires EntryOk(key, e, up) && FirstDiff(v, key, d) && d < |v| && e.mask.Net?
    ensures Matches(Item(key, e.mask, e.root, e.id), v) <==> e.mask.len <= d
  {
    var n := e.mask.len;
    if n <= d {
      assert key[..n] == key[..d][..n] == v[..n];
    } else if key[..n] == v[..n] {
      SameAt(key, v, n, d);
      assert false;
    }
  }

  predicate CoveredBy(m: Mask, d: nat) { m.Net? && m.len <= d }

  // The first entry of the chain whose mask has index at most d is the best match.
  lemma ChainCovered(path: RPath, leaf: RTree, v: Key, d: nat, i: nat, w: nat)
    requires leaf.Leaf? && AtLeaf(path, leaf.key, leaf.chain, v, w) && FirstDiff(v, leaf.key, d) && d < w
    requires v != Ones(w)
    requires i <= |leaf.chain| && forall k :: 0 <= k < i ==> !CoveredBy(leaf.chain[k].mask, d)
    requires i < |leaf.chain| ==> CoveredBy(leaf.chain[i].mask, d)
    ensures i == |leaf.chain| ==> ChainMisses(leaf.key, leaf.chain, v)
    ensures i < |leaf.chain| ==> !leaf.chain[i].root
    ensures i < |leaf.chain| ==>
      var s := Items(leaf) + SibItems(path);
      LinearAnswer(s, leaf.chain[i].id, false, v) && !ShadowedByOnes(s, v)
  {
    var key, chain := leaf.key, leaf.chain;
    forall k | 0 <= k < |chain|
      ensures Matches(Item(key, chain[k].mask, chain[k].root, chain[k].id), v) <==> CoveredBy(chain[k].mask, d)
    {
      assert EntryOk(key, chain[k], Bit(path, -1));
      if chain[k].mask.Net? { CoversIff(key, chain[k], v, d, Bit(path, -1)); }
    }
    if i < |chain| {
      ChainIsBest(path, key, chain, v, w, i);
      BestIsRight(Items(leaf) + SibItems(path), Item(key, chain[i].mask, chain[i].root, chain[i].id), v);
    }
  }

  // RNF_NORMAL: rn_addmask does not set it for the empty mask.
  predicate Normal(m: Mask) { m.Net? && m.len > 0 }

  // The length byte of a mask: trailing zero bytes are trimmed (rn_addmask).
  function MaskBytes(len: nat): nat { (len + 7) / 8 }

  lemma HeadLimit(key: Key, chain: seq<REntry>, w: nat, up: int)
    requires LeafOk(key, chain, w, up) && w % 8 == 0
    ensures var m := chain[0].mask; m.Net? ==> m.len <= 8 * MaskBytes(m.len) <= w
  {
    assert EntryOk(key, chain[0], up);
  }

  // Follows rn_dupedkey from the head of a chain, past a host route, to the first entry that
  // covers v.  The empty mask goes through rn_satsifies_leaf, which it always passes.
  method ScanChain(h: RadixNode, v: Key, d: nat, ghost key: Key, ghost chain: seq<REntry>, ghost p: RadixNode)
    returns (n: RadixNode?, ghost i: nat)
    requires ChainWired(key, chain, p) && h == chain[0].id && |key| == |v|
    requires forall k :: 0 < k < |chain| ==> chain[k].mask.Net?
    ensures i <= |chain| && n == (if i < |chain| then chain[i].id else null)
    ensures forall k :: 0 <= k < i ==> !CoveredBy(chain[k].mask, d)
    ensures n != null ==> CoveredBy(chain[i].mask, d)
  {
    n, i := h, 0;
    if h.mask == Host {
      assert EntryWired(key, chain, 0, p);
      n, i := h.duped, 1;
    }
    while n != null && !(if Normal(n.mask) then n.mask.len <= d else SatisfiesLeaf(v, n))
      invariant i <= |chain| && n == (if i < |chain| then chain[i].id else null)
      invariant i < |chain| ==> EntryWired(key, chain, i, p) && chain[i].mask.Net?
      invariant forall k :: 0 <= k < i ==> !CoveredBy(chain[k].mask, d)
      decreases |chain| - i
    {
      assert !CoveredBy(chain[i].mask, d);
      n := n.duped;
      i := i + 1;
    }
  }

  // The first annotation of a node's list that covers v.  One for the empty mask (not RNF_NORMAL)
  // covers every v.
  method ScanList(t: RadixNode, d: nat) returns (k: nat)
    ensures k <= |t.mklist| && AnnsMiss(t.mklist[..k], d) && (k < |t.mklist| ==> t.mklist[k].len <= d)
  {
    k := 0;
    while k < |t.mklist| && t.mklist[k].len > 0 && t.mklist[k].len > d
      invariant k <= |t.mklist| && AnnsMiss(t.mklist[..k], d)
    {
      k := k + 1;
    }
  }

  // Follows rn_p from a leaf to the first node whose list holds an annotation that covers v.
  method ScanUp(h: RadixNode, d: nat, top: RadixNode, ghost path: RPath)
    returns (t: RadixNode, k: nat, ghost j: nat)
    requires path != [] && path[0].n == top && SpineWired(path, h, top) && h.p == path[|path| - 1].n
    requires SpineApart(path)
    ensures FirstCover(path, d, j, k) && t == path[j].n && t.mklist == path[j].anns
  {
    t, j := h.p, |path| - 1;
    assert SpineNodeWired(path[j], Below(path, j, h), Above(path, j, top));
    k := ScanList(t, d);
    while k == |t.mklist| && t != top
      invariant SpineWired(path, h, top)
      invariant j < |path| && t == path[j].n && t.mklist == path[j].anns && k <= |t.mklist|
      invariant forall i :: j < i < |path| ==> AnnsMiss(path[i].anns, d)
      invariant AnnsMiss(t.mklist[..k], d) && (k < |t.mklist| ==> t.mklist[k].len <= d)
      decreases j
    {
      assert t.mklist[..k] == t.mklist;
      assert SpineNodeWired(path[j], Below(path, j, h), Above(path, j, top));
      t, j := t.p, j - 1;
      assert SpineNodeWired(path[j], Below(path, j, h), Above(path, j, top));
      k := ScanList(t, d);
    }
    if j > 0 { SpineDiffer(path, 0, j); }
  }

  lemma {:induction false} LeafOf(t: RTree, x: RItem) returns (path: RPath, f: RTree)
    requires x in Items(t)
    ensures t == Plug(path, f) && f.Leaf? && x in Items(f)
  {
    if t.Leaf? {
      path, f := [], t;
    } else {
      var right := x in Items(t.r);
      path, f := LeafOf(StepInto(t, right), x);
      path := [StepFrame(t, right)] + path;
      assert path[1..] == path[1..];
    }
  }

  // Follows rn_dupedkey from the head of a chain to the entry with the given mask.
  method FindInChain(h: RadixNode, m: Mask, ghost key: Key, ghost chain: seq<REntry>, ghost p: RadixNode)
    returns (n: RadixNode?, ghost i: nat)
    requires ChainWired(key, chain, p) && h == chain[0].id
    ensures n == null ==> forall k :: 0 <= k < |chain| ==> chain[k].mask != m
    ensures n != null ==> i < |chain| && n == chain[i].id && chain[i].mask == m
  {
    n, i := h, 0;
    while n != null && n.mask != m
      invariant i <= |chain| && n == (if i < |chain| then chain[i].id else null)
      invariant i < |chain| ==> EntryWired(key, chain, i, p)
      invariant forall k :: 0 <= k < i ==> chain[k].mask != m
      decreases |chain| - i
    {
      assert chain[i].mask != m;
      n := n.duped;
      i := i + 1;
    }
  }

  // rn_satsifies_leaf: the key of the leaf agrees with v under the leaf's mask.
  predicate SatisfiesLeaf(v: Key, n: RadixNode)
    reads n
  {
    match n.mask
    case Host => v == n.key
    case Net(len) => len <= |v| && len <= |n.key| && v[..len] == n.key[..len]
  }

  class RadixHead {
    const width: nat
    const top: RadixNode
    ghost var tree: RTree
    ghost var repr: set<RadixNode>

    ghost predicate Linked()
      reads this, repr
    {
      Sub(tree, top, repr) && tree.Node? && tree.n == top && tree.pre == []
    }

    ghost predicate Valid()
      reads this, repr
    {
      && width > 0 && width % 8 == 0
      && Linked()
      && TreeOk(tree, width, -1)
      && RootsOk(Items(tree), width)
      && SlotsOk(Items(tree), Internals(tree), top)
      && FlagsOk(Items(tree), Internals(tree), repr)
    }

    // rn_inithead: one internal node above a root leaf of zeros and a root leaf of ones.
    constructor (w: nat)
      requires w > 0 && w % 8 == 0
      ensures Valid() && width == w
      ensures forall x :: x in Items(tree) ==> x.root
      ensures fresh(top) && fresh(repr)
    {
      width := w;
      var t, tt, ttt := FirstNodes(w);
      top := t;
      tree, repr := InitialTree(w, t, tt, ttt), {t, tt, ttt};
      new;
      hide TreeOk, SlotsOk, RootsOk, Sub, InitialTree, FlagsOk, First;
      FreshTree(w, t, tt, ttt);
      FreshSlots(w, t, tt, ttt);
      FreshWired(w, t, tt, ttt);
      FreshFlags(w, t, tt, ttt);
    }

    // What validity of the whole tree says about a subtree and the path to it.
    lemma Focus(path: RPath, f: RTree)
      requires Valid() && tree == Plug(path, f)
      ensures TreeOk(f, width, Bit(path, -1)) && PathOk(path, Items(f), width, -1)
      ensures Items(tree) == Items(f) + SibItems(path) && AllItemsOk(Items(tree), width)
      ensures Around(path, RootOf(f), top, repr) && Sub(f, Above(path, |path|, top), repr)
      ensures f.Leaf? ==> path != []
      ensures path != [] ==> path[0].n == top && path[0].pre == []
    {
      PlugOk(path, f, width, -1);
      PlugItems(path, f);
      TreeItemsOk(tree, width, -1);
      FocusLinks(path, f, top, repr);
    }

    lemma FocusHere(path: RPath, f: RTree)
      requires Valid() && tree == Plug(path, f)
      ensures TreeOk(f, width, Bit(path, -1)) && Wired(f, Above(path, |path|, top))
      ensures RootOf(f) != null && (RootOf(f).b >= 0 <==> f.Node?)
    {
      Focus(path, f);
      if f.Leaf? {
        assert EntryWired(f.key, f.chain, 0, Above(path, |path|, top));
      }
    }

    // rn_search
    method Search(v: Key) returns (x: RadixNode, ghost path: RPath, ghost leaf: RTree)
      requires Valid() && |v| == width
      ensures Valid() && tree == Plug(path, leaf) && leaf.Leaf? && x == RootOf(leaf) && Follows(path, v)
    {
      x := top;
      ghost var f := tree;
      path := [];
      while x.b >= 0
        invariant Valid() && tree == Plug(path, f) && x == RootOf(f) && Follows(path, v)
        decreases f
      {
        FocusHere(path, f);
        StepDown(path, f, v, width);
        path, f := path + [StepFrame(f, v[x.b])], StepInto(f, v[x.b]);
        if v[x.b] {
          x := x.r;
        } else {
          x := x.l;
        }
      }
      leaf := f;
      FocusHere(path, leaf);
    }

    // rn_search_m for the empty mask: always to the left, down to the chain of the zero key,
    // then along the chain to the entry with that mask.
    method SearchZeroMask(t: RadixNode, ghost it: RItem) returns (x: RadixNode)
      requires Valid() && t == top && it in Items(tree) && it.mask == Net(0)
      ensures x == it.id
    {
      x := t;
      ghost var f := tree;
      ghost var path: RPath := [];
      while x.b >= 0
        invariant Valid() && tree == Plug(path, f) && x == RootOf(f) && it in Items(f)
        decreases f
      {
        FocusHere(path, f);
        LeftOfZeroMask(path, f, it, width);
        path, f := path + [StepFrame(f, false)], f.l;
        x := x.l;
      }
      FocusHere(path, f);
      assert exists k :: 0 <= k < |f.chain| && f.chain[k].id == it.id && f.chain[k].mask == Net(0);
      var y, k := FindInChain(x, Net(0), f.key, f.chain, Above(path, |path|, top));
      assert forall j :: 0 <= j < |f.chain| && j != k ==> f.chain[j].mask != Net(0);
      x := y;
    }

    ghost predicate Answers(res: RadixNode?, v: Key)
      reads this, res
    {
      LinearAnswer(Items(tree), res, res != null && res.root, v) <==> !ShadowedByOnes(Items(tree), v)
    }

    // The first comparison of rn_match: v and the leaf's key, over the bytes of the leaf's mask.
    method CompareLeaf(v: Key, t: RadixNode, ghost path: RPath, ghost leaf: RTree) returns (same: bool, d: nat)
      requires Valid() && |v| == width && tree == Plug(path, leaf) && leaf.Leaf? && Follows(path, v)
      requires t == RootOf(leaf)
      ensures Valid() && AtLeaf(path, leaf.key, leaf.chain, v, width)
      ensures same ==> SameAnswer(Items(tree), leaf.chain, v)
      ensures !same ==> FirstDiff(v, leaf.key, d) && d < width && v != Ones(width)
    {
      HeadOfLeaf(t, v, path, leaf);
      var vlen := width / 8;
      if t.mask.Net? {
        vlen := MaskBytes(t.mask.len);
      }
      same, d := CompareBytes(v, t.key, vlen);
      AfterCompare(v, path, leaf, 8 * vlen, same);
    }

    lemma HeadOfLeaf(t: RadixNode, v: Key, path: RPath, leaf: RTree)
      requires Valid() && |v| == width && tree == Plug(path, leaf) && leaf.Leaf? && Follows(path, v)
      requires t == RootOf(leaf)
      ensures AtLeaf(path, leaf.key, leaf.chain, v, width)
      ensures leaf.chain != [] && t.mask == leaf.chain[0].mask && t.key == leaf.key && |leaf.key| == width
      ensures t.mask.Net? ==> t.mask.len <= 8 * MaskBytes(t.mask.len) <= width
    {
      FocusHere(path, leaf);
      ArriveAtLeaf(path, leaf, v, width);
      assert EntryWired(leaf.key, leaf.chain, 0, Above(path, |path|, top));
      HeadLimit(leaf.key, leaf.chain, width, Bit(path, -1));
    }

    lemma AfterCompare(v: Key, path: RPath, leaf: RTree, lim: nat, same: bool)
      requires Valid() && |v| == width && tree == Plug(path, leaf) && leaf.Leaf?
      requires AtLeaf(path, leaf.key, leaf.chain, v, width) && lim <= width
      requires match leaf.chain[0].mask case Host => lim == width case Net(len) => len <= lim
      requires if same then v[..lim] == leaf.key[..lim] else v != leaf.key
      ensures same ==> SameAnswer(Items(tree), leaf.chain, v)
      ensures !same ==> v != Ones(width)
    {
      Focus(path, leaf);
      if same {
        SameAtLeaf(path, leaf, v, width, lim);
      } else if v == Ones(width) {
        OnesFound(path, leaf, v, width);
      }
    }

    // rn_match: the best match of v, as a linear search over all routes would find it.
    method Match(v: Key) returns (res: RadixNode?)
      requires Valid() && |v| == width
      ensures Answers(res, v)
    {
      hide FlagsOk, SlotsOk, RootsOk;
      var t, path, leaf := Search(v);
      var same, d := CompareLeaf(v, t, path, leaf);
      Focus(path, leaf);
      ghost var key, chain, up := leaf.key, leaf.chain, Above(path, |path|, top);
      if same {
        assert EntryWired(key, chain, 0, up);
        res := t;
        if t.root && t.duped != null {
          assert EntryWired(key, chain, 1, up) && EntryOk(key, chain[1], Bit(path, -1));
          res := t.duped;
        }
        return;
      }
      ghost var i;
      res, i := ScanChain(t, v, d, key, chain, up);
      Focus(path, leaf);
      ChainCovered(path, leaf, v, d, i, width);
      if res != null {
        assert EntryWired(key, chain, i, up);
        return;
      }
      res := MatchUp(t, v, d, path, leaf);
    }

    // The way up the tree: the first annotation on it that covers v.
    method MatchUp(h: RadixNode, v: Key, d: nat, ghost path: RPath, ghost leaf: RTree) returns (res: RadixNode?)
      requires Valid() && tree == Plug(path, leaf) && leaf.Leaf? && h == RootOf(leaf)
      requires AtLeaf(path, leaf.key, leaf.chain, v, width) && FirstDiff(v, leaf.key, d)
      requires v != Ones(width) && ChainMisses(leaf.key, leaf.chain, v)
      ensures Answers(res, v)
    {
      Focus(path, leaf);
      assert EntryWired(leaf.key, leaf.chain, 0, Above(path, |path|, top));
      var t, k, j := ScanUp(h, d, top, path);
      Focus(path, leaf);
      ghost var key, chain := leaf.key, leaf.chain;
      if k == |t.mklist| {
        NothingMatches(path, key, chain, v, width, d);
        return null;
      }
      res := t.mklist[k].id;
      ghost var x := LiftedIsBest(path, key, chain, v, width, d, j, k);
      BestIsRight(Items(tree), x, v);
      NetIsNoRoot(x);
      if t.mklist[k].len == 0 {
        FrameAt(path, ChainItems(key, chain), width, -1, j);
        res := SearchZeroMask(t, x);
      }
    }

    // A route with a mask is no root leaf.
    lemma NetIsNoRoot(x: RItem)
      requires Valid() && x in Items(tree) && x.mask.Net?
      ensures !x.id.root
    {
      var path, f := LeafOf(tree, x);
      Focus(path, f);
      var i :| 0 <= i < |f.chain| && f.chain[i].id == x.id && f.chain[i].mask == x.mask;
      assert EntryWired(f.key, f.chain, i, Above(path, |path|, top)) && EntryOk(f.key, f.chain[i], Bit(path, -1));
    }

    // Records what the links have been changed to: the tree t over the objects objs, with the
    // nodes of idle unused beside it.
    ghost method Adopt(t: RTree, objs: set<RadixNode>, r: set<RadixNode>, idle: set<RadixNode>)
      requires width > 0 && width % 8 == 0
      requires Sub(t, top, objs) && objs <= r && idle <= r && Settled(t, top, width, idle)
      requires Unused(idle)
      modifies this
      ensures Valid() && tree == t && repr == r
    {
      SettleFlags(t, top, objs, r, idle);
      tree, repr := t, r;
    }

    // A new key: rn_insert found no leaf for it.
    method AddKey(v: Key, m: Mask, nodes: RadixNode, h: RadixNode, d: nat, ghost path: RPath, ghost leaf: RTree)
      requires Valid() && |v| == width && (m.Net? ==> m.len <= width && Clear(v, m.len))
      requires nodes !in repr && nodes.twin != null && nodes.twin !in repr && nodes.twin != nodes
      requires tree == Plug(path, leaf) && leaf.Leaf? && h == RootOf(leaf)
      requires AtLeaf(path, leaf.key, leaf.chain, v, width) && FirstDiff(v, leaf.key, d) && d < width
      modifies this, repr, nodes, nodes.twin
      ensures Valid() && repr == old(repr) + {nodes, nodes.twin}
      ensures Items(tree) == old(Items(tree)) + {Item(v, m, false, nodes)}
      ensures forall m' :: !HasRoute(old(Items(tree)), v, m')
    {
      hide SlotsOk, FlagsOk, Unused, Idle, RootsOk, TreeOk;
      ghost var objs, t := Objs(tree), nodes.twin as RadixNode;
      ghost var repr' := repr + {nodes, t};
      NewFacts(v, path, leaf);
      ghost var idle := NewSlots(v, m, nodes, t);
      ghost var tree' := InsertKey(v, m, nodes.twin, nodes, h, d, top, width, path, leaf, objs);
      Adopt(tree', objs + {t, nodes}, repr', idle);
    }

    lemma NewFacts(v: Key, path: RPath, leaf: RTree)
      requires Valid() && |v| == width && tree == Plug(path, leaf) && leaf.Leaf?
      requires AtLeaf(path, leaf.key, leaf.chain, v, width) && leaf.key != v
      ensures forall y :: y in Items(tree) ==> y.key != v
      ensures Items(tree) == SibItems(path) + Items(leaf)
      ensures Sub(tree, top, Objs(tree)) && path != [] && path[0].n == top && path[0].pre == []
      ensures !RootKey(v)
    {
      hide FlagsOk, SlotsOk, TreeOk;
      Focus(path, leaf);
      NoSuchKey(path, leaf, v, width);
      NotRootKey(Items(tree), width, v);
    }

    lemma NewSlots(v: Key, m: Mask, nodes: RadixNode, t: RadixNode) returns (idle: set<RadixNode>)
      requires Valid() && nodes !in repr && nodes.twin == t && t !in repr && t != nodes
      requires !RootKey(v) && forall y :: y in Items(tree) ==> y.key != v
      ensures Ready(Items(tree) + {Item(v, m, false, nodes)}, Internals(tree) + {t}, top, width, idle)
      ensures idle !! Objs(tree) + {t, nodes} && idle <= repr && Objs(tree) <= repr && Unused(idle)
    {
      idle := Idle(Items(tree), Internals(tree));
      TreeObjs(tree);
      IdleApart(Items(tree), Internals(tree), top, repr, Objs(tree));
      SlotsNewKey(Items(tree), Internals(tree), top, Item(v, m, false, nodes), repr);
      RootsStay(Items(tree), width, Item(v, m, false, nodes));
    }

    // A key that is there: rn_insert reports a duplicate.
    method AddMask(v: Key, m: Mask, nodes: RadixNode, h: RadixNode, ghost twin: RadixNode, ghost path: RPath,
                   ghost leaf: RTree)
      returns (res: RadixNode?)
      requires Valid() && |v| == width && (m.Net? ==> m.len <= width && Clear(v, m.len))
      requires nodes !in repr && nodes.twin == twin && twin !in repr && twin != nodes && !twin.active
      requires tree == Plug(path, leaf) && leaf.Leaf? && h == RootOf(leaf)
      requires AtLeaf(path, leaf.key, leaf.chain, v, width) && leaf.key == v
      modifies this, repr, nodes
      ensures Valid()
      ensures res != null <==> !HasRoute(old(Items(tree)), v, m)
      ensures res == null ==> tree == old(tree) && repr == old(repr)
      ensures res != null ==> res == nodes && repr == old(repr) + {nodes, twin}
      ensures res != null ==> Items(tree) == old(Items(tree)) + {Item(v, m, false, nodes)}
    {
      hide TreeOk, FlagsOk, SlotsOk, RootsOk, Linked, ChainSorted;
      MaskFacts(v, m, h, path, leaf);
      var dup, t, tt, i := FindDup(h, m, width, Bit(path, -1), leaf.key, leaf.chain, Above(path, |path|, top));
      if dup {
        return null;
      }
      LinkMask(v, m, nodes, h, t, tt, i, twin, path, leaf);
      res := nodes;
    }

    method LinkMask(v: Key, m: Mask, nodes: RadixNode, h: RadixNode, t: RadixNode, tt: RadixNode?, ghost i: nat,
                    ghost twin: RadixNode, ghost path: RPath, ghost leaf: RTree)
      requires Valid() && |v| == width && (m.Net? ==> m.len <= width && Clear(v, m.len))
      requires nodes !in repr && nodes.twin == twin && twin !in repr && twin != nodes && !twin.active
      requires tree == Plug(path, leaf) && leaf.Leaf? && h == RootOf(leaf)
      requires AtLeaf(path, leaf.key, leaf.chain, v, width) && leaf.key == v
      requires !HasRoute(Items(tree), v, m)
      requires i <= |leaf.chain| && t == leaf.chain[if i == 0 then 0 else i - 1].id
      requires tt == (if i < |leaf.chain| then leaf.chain[i].id else null)
      requires (forall j :: 0 <= j < i ==> Rank(leaf.chain[j].mask, width) > Rank(m, width))
      requires i < |leaf.chain| ==> Rank(leaf.chain[i].mask, width) < Rank(m, width)
      modifies this, repr, nodes
      ensures Valid() && repr == old(repr) + {nodes, twin}
      ensures Items(tree) == old(Items(tree)) + {Item(v, m, false, nodes)}
    {
      hide SlotsOk, FlagsOk, Unused, Idle, RootsOk, TreeOk, AtLeaf;
      MaskFacts(v, m, h, path, leaf);
      ghost var objs := Objs(tree);
      ghost var idle := MaskSlots(v, m, nodes, twin, path, leaf);
      ghost var tree' := InsertMask(h, tt, t, nodes, m, top, h.p.l != h, i, width, path, leaf, objs);
      Adopt(tree', objs + {nodes}, repr + {nodes, twin}, idle);
    }

    lemma MaskFacts(v: Key, m: Mask, h: RadixNode, path: RPath, leaf: RTree)
      requires Valid() && |v| == width && tree == Plug(path, leaf) && leaf.Leaf? && h == RootOf(leaf)
      requires AtLeaf(path, leaf.key, leaf.chain, v, width) && leaf.key == v
      ensures ChainWired(leaf.key, leaf.chain, Above(path, |path|, top)) && h == leaf.chain[0].id
      ensures path != [] && path[0].n == top && path[0].pre == [] && Sub(tree, top, Objs(tree))
      ensures h.p == path[|path| - 1].n && (h.p.l != h <==> path[|path| - 1].right)
      ensures Items(tree) == Items(leaf) + SibItems(path)
      ensures (exists k :: 0 <= k < |leaf.chain| && leaf.chain[k].mask == m) <==> HasRoute(Items(tree), v, m)
    {
      Focus(path, leaf);
      SubLeaf(leaf, Above(path, |path|, top), repr);
      SideOf(path, leaf, top, repr);
      SameMaskThere(path, leaf, v, width, m);
    }

    lemma MaskSlots(v: Key, m: Mask, nodes: RadixNode, twin: RadixNode, path: RPath, leaf: RTree)
      returns (idle: set<RadixNode>)
      requires Valid() && nodes !in repr && nodes.twin == twin && twin !in repr && twin != nodes
      requires tree == Plug(path, leaf) && leaf.Leaf? && leaf.chain != [] && leaf.key == v && !twin.active
      ensures Ready(Items(tree) + {Item(v, m, false, nodes)}, Internals(tree), top, width, idle)
      ensures idle !! Objs(tree) + {nodes} && idle <= repr + {twin} && Objs(tree) <= repr && Unused(idle)
    {
      hide TreeOk, Plug;
      ghost var s, x := Items(tree), Item(v, m, false, nodes);
      idle := Idle(s + {x}, Internals(tree));
      TreeObjs(tree);
      PlugItems(path, leaf);
      ghost var y := Item(v, leaf.chain[0].mask, leaf.chain[0].root, leaf.chain[0].id);
      assert y in s by { assert leaf.chain[0] in leaf.chain; }
      IdleApart(s, Internals(tree), top, repr, Objs(tree));
      SlotsNewMask(s, Internals(tree), top, x, y, repr);
      RootsStay(s, width, x);
    }

    // rn_addroute: enters the route unless its key and mask are there already.
    method AddRoute(v: Key, m: Mask, nodes: RadixNode) returns (res: RadixNode?)
      requires Valid() && |v| == width && (m.Net? ==> m.len <= width && Clear(v, m.len))
      requires nodes !in repr && nodes.twin != null && nodes.twin !in repr && nodes.twin != nodes && !nodes.twin.active
      modifies this, repr, nodes, nodes.twin
      ensures Valid()
      ensures res != null <==> !HasRoute(old(Items(tree)), v, m)
      ensures res == null ==> tree == old(tree) && repr == old(repr)
      ensures res != null ==> res == nodes && repr == old(repr) + {nodes, nodes.twin}
      ensures res != null ==> Items(tree) == old(Items(tree)) + {Item(v, m, false, nodes)}
    {
      hide Valid, Plug, Items, HasRoute, Clear, AtLeaf, Follows;
      var h, path, leaf := Search(v);
      HeadOfLeaf(h, v, path, leaf);
      var same, d := CompareBytes(v, h.key, width / 8);
      if same {
        assert leaf.key == v by { assert v[..width] == v && h.key[..width] == h.key; }
        res := AddMask(v, m, nodes, h, nodes.twin, path, leaf);
      } else {
        AddKey(v, m, nodes, h, d, path, leaf);
        res := nodes;
      }
    }

    // The entry rn_delete is to take out.
    method FindVictim(v: Key, m: Mask, h: RadixNode, ghost path: RPath, ghost leaf: RTree)
      returns (tt: RadixNode?, ghost i: nat)
      requires Valid() && |v| == width && tree == Plug(path, leaf) && leaf.Leaf? && h == RootOf(leaf)
      requires AtLeaf(path, leaf.key, leaf.chain, v, width) && leaf.key == v
      ensures tt == null ==> forall y :: y in Items(tree) ==> !Victim(Items(tree), y, v, m)
      ensures tt != null ==> i < |leaf.chain| && tt == leaf.chain[i].id && Victim(Items(tree), ItemAt(leaf, i), v, m)
    {
      Focus(path, leaf);
      ghost var up := Above(path, |path|, top);
      SubLeaf(leaf, up, repr);
      tt, i := h, 0;
      if m.Net? {
        tt, i := FindInChain(h, m, leaf.key, leaf.chain, up);
      }
      if tt != null {
        assert EntryWired(leaf.key, leaf.chain, i, up);
        VictimAt(path, leaf, v, m, width, i);
        if tt.root {
          tt := null;
        }
      } else {
        NoVictim(path, leaf, v, m, width);
      }
    }

    // The nodes that stay idle beside the tree once x and its slot have left.
    lemma DropSlots(x: RItem, ns': set<RadixNode>) returns (idle: set<RadixNode>)
      requires Valid() && x in Items(tree) && !x.root
      requires SlotsOk(Items(tree) - {x}, ns', top) && forall n :: n in Internals(tree) && n !in ns' ==> n == x.id.twin
      ensures Ready(Items(tree) - {x}, ns', top, width, idle) && Unused(idle)
      ensures idle !! Objs(tree) && idle !! ns' && x.id.twin !in idle && idle <= repr && Objs(tree) <= repr
    {
      idle := Idle(Items(tree) - {x}, ns');
      TreeObjs(tree);
      IdleApart(Items(tree), Internals(tree), top, repr, Objs(tree));
      IdleRest(Items(tree), Internals(tree), ns', top, x);
      RootsStay(Items(tree), width, x);
    }

    // x shares its key with y: if x lends its internal node, y's can stand in.
    lemma OneSlots(x: RItem, y: RItem, twin: RadixNode) returns (spare: set<RadixNode>, idle: set<RadixNode>)
      requires Valid() && x in Items(tree) && !x.root && x.id.twin == twin
      requires y in Items(tree) && y != x && y.key == x.key
      ensures twin in repr && x.id in Objs(tree) && (twin.active <==> twin in Internals(tree))
      ensures SpareSlot(spare, twin, y.id, Internals(tree), Objs(tree), top) && spare <= repr - {x.id, twin}
      ensures Ready(Items(tree) - {x}, Internals(tree) - {twin} + spare, top, width, idle)
      ensures idle !! Objs(tree) + spare && twin !in idle && idle <= repr && Objs(tree) <= repr && Unused(idle)
    {
      ghost var s, ns := Items(tree), Internals(tree);
      TreeObjs(tree);
      IdleApart(s, ns, top, repr, Objs(tree));
      assert Proper(x, top) && Apart(x, y);
      if twin in ns {
        assert Lends(x, ns, top);
        NotARoot(x, y);
        SlotsMove(s, ns, top, x, y);
        assert y.id.twin in Idle(s, ns);
        spare := {y.id.twin as RadixNode};
      } else {
        SlotsKeep(s, ns, top, x);
        assert twin in Idle(s, ns);
        spare := {};
        assert ns - {twin} + spare == ns;
      }
      idle := DropSlots(x, ns - {twin} + spare);
    }

    lemma NotARoot(x: RItem, y: RItem)
      requires Valid() && x in Items(tree) && y in Items(tree) && y.key == x.key && Lends(x, Internals(tree), top)
      ensures !y.root
    {
    }

    // x is the only entry of its key.
    lemma LastSlots(x: RItem, twin: RadixNode) returns (idle: set<RadixNode>)
      requires Valid() && x in Items(tree) && !x.root && x.id.twin == twin && !RootKey(x.key)
      requires forall y :: y in Items(tree) && y != x ==> y.key != x.key
      ensures twin in repr && x.id in Objs(tree) && twin in Internals(tree) && twin != top
      ensures Ready(Items(tree) - {x}, Internals(tree) - {twin}, top, width, idle)
      ensures idle !! Objs(tree) && twin !in idle && idle <= repr && Objs(tree) <= repr && Unused(idle)
    {
      TreeObjs(tree);
      SlotsLast(Items(tree), Internals(tree), top, x);
      idle := DropSlots(x, Internals(tree) - {twin});
    }

    // Deletes an entry whose key has others; the pair can be freed afterwards.
    method EliminateOne(tt: RadixNode, h: RadixNode, ghost twin: RadixNode, ghost i: nat, ghost path: RPath,
                        ghost leaf: RTree)
      requires Valid() && tree == Plug(path, leaf) && leaf.Leaf? && h == RootOf(leaf)
      requires AtLeaf(path, leaf.key, leaf.chain, leaf.key, width) && |leaf.chain| > 1
      requires i < |leaf.chain| && tt == leaf.chain[i].id && !leaf.chain[i].root && tt.twin == twin
      modifies this, repr
      ensures Valid() && repr == old(repr) - {tt, twin} && !tt.active && !twin.active
      ensures Items(tree) == old(Items(tree)) - {ItemAt(leaf, i)}
    {
      hide SlotsOk, FlagsOk, Idle, RootsOk, TreeOk, Sub, Unused;
      ghost var y := leaf.chain[if i == 0 then 1 else 0].id;
      ghost var spare, idle := OneFacts(tt, h, y, twin, i, path, leaf);
      ghost var n := RemovePair(tt, h, h.p, h.p.l != h, top, twin, spare, i, width, path, leaf, Objs(tree));
      Adopt(n, Objs(n), repr - {tt, twin}, idle);
    }

    lemma OneFacts(tt: RadixNode, h: RadixNode, y: RadixNode, twin: RadixNode, i: nat, path: RPath, leaf: RTree)
      returns (spare: set<RadixNode>, idle: set<RadixNode>)
      requires Valid() && tree == Plug(path, leaf) && leaf.Leaf? && h == RootOf(leaf)
      requires AtLeaf(path, leaf.key, leaf.chain, leaf.key, width) && |leaf.chain| > 1
      requires i < |leaf.chain| && tt == leaf.chain[i].id && !leaf.chain[i].root && tt.twin == twin
      requires y == leaf.chain[if i == 0 then 1 else 0].id
      ensures path != [] && path[0].n == top && path[0].pre == [] && Sub(tree, top, Objs(tree))
      ensures h.p == path[|path| - 1].n && (h.p.l != h <==> path[|path| - 1].right)
      ensures Items(tree) == SibItems(path) + Items(leaf) && ItemAt(leaf, i) in Items(tree)
      ensures twin in repr && tt in Objs(tree) && (twin.active <==> twin in Internals(tree))
      ensures SpareSlot(spare, twin, y, Internals(tree), Objs(tree), top) && spare <= repr - {tt, twin}
      ensures Ready(Items(tree) - {ItemAt(leaf, i)}, Internals(tree) - {twin} + spare, top, width, idle)
      ensures idle !! Objs(tree) + spare && twin !in idle && idle <= repr && Objs(tree) <= repr && Unused(idle)
    {
      hide SlotsOk, FlagsOk, Idle, RootsOk, TreeOk, Unused, SpareSlot, Ready;
      Focus(path, leaf);
      SideOf(path, leaf, top, repr);
      ghost var k := if i == 0 then 1 else 0;
      assert ItemAt(leaf, i) in Items(leaf) by { assert leaf.chain[i] in leaf.chain; }
      assert ItemAt(leaf, k) in Items(leaf) by { assert leaf.chain[k] in leaf.chain; }
      spare, idle := OneSlots(ItemAt(leaf, i), ItemAt(leaf, k), twin);
    }

    // Deletes the only entry of its key; the pair can be freed afterwards.
    method EliminateLast(tt: RadixNode, ghost twin: RadixNode, ghost path: RPath, ghost leaf: RTree)
      requires Valid() && tree == Plug(path, leaf) && leaf.Leaf?
      requires AtLeaf(path, leaf.key, leaf.chain, leaf.key, width) && |leaf.chain| == 1
      requires tt == leaf.chain[0].id && !leaf.chain[0].root && tt.twin == twin
      modifies this, repr
      ensures Valid() && repr == old(repr) - {tt, twin} && !tt.active && !twin.active
      ensures Items(tree) == old(Items(tree)) - {ItemAt(leaf, 0)}
    {
      hide SlotsOk, FlagsOk, Idle, RootsOk, TreeOk, Sub, Unused;
      ghost var idle := LastFacts(tt, twin, path, leaf);
      ghost var p, fr := path[..|path| - 1], path[|path| - 1];
      assert path == p + [fr];
      ghost var n := RemoveLone(tt, top, twin, width, p, fr, leaf, Objs(tree));
      Adopt(n, Objs(n), repr - {tt, twin}, idle);
    }

    lemma LastFacts(tt: RadixNode, twin: RadixNode, path: RPath, leaf: RTree) returns (idle: set<RadixNode>)
      requires Valid() && tree == Plug(path, leaf) && leaf.Leaf?
      requires AtLeaf(path, leaf.key, leaf.chain, leaf.key, width) && |leaf.chain| == 1
      requires tt == leaf.chain[0].id && !leaf.chain[0].root && tt.twin == twin
      ensures |path| > 1 && path[0].n == top && path[0].pre == [] && Sub(tree, top, Objs(tree))
      ensures Items(tree) == SibItems(path) + Items(leaf) && ItemAt(leaf, 0) in Items(tree)
      ensures twin in repr && tt in Objs(tree) && twin in Internals(tree) && twin != top
      ensures Ready(Items(tree) - {ItemAt(leaf, 0)}, Internals(tree) - {twin}, top, width, idle)
      ensures idle !! Objs(tree) && twin !in idle && idle <= repr && Objs(tree) <= repr && Unused(idle)
    {
      hide SlotsOk, FlagsOk, Idle, Unused, Ready;
      Focus(path, leaf);
      assert ItemAt(leaf, 0) in Items(leaf) by { assert leaf.chain[0] in leaf.chain; }
      LoneLeaf(path, leaf, width);
      idle := LastSlots(ItemAt(leaf, 0), twin);
    }

    // rn_delete: takes the route out of the tree.  Nothing in the tree refers to its pair of nodes
    // any more, so the caller may free it.
    method DeleteRoute(v: Key, m: Mask) returns (res: RadixNode?)
      requires Valid() && |v| == width
      modifies this, repr
      ensures Valid()
      ensures res == null ==> tree == old(tree) && repr == old(repr)
      ensures res == null ==> forall y :: y in old(Items(tree)) ==> !Victim(old(Items(tree)), y, v, m)
      ensures res != null ==> Deleted(old(Items(tree)), Items(tree), res, v, m)
      ensures res != null ==> repr == old(repr) - {res, res.twin} && !res.active && res.twin != null && !res.twin.active
    {
      hide SlotsOk, FlagsOk, RootsOk, TreeOk, Victim, Sub, PathOk, Follows, AllItemsOk;
      var h, path, leaf := Search(v);
      HeadOfLeaf(h, v, path, leaf);
      var same, d := CompareBytes(v, h.key, width / 8);
      if !same {
        KeyMissing(v, m, path, leaf);
        return null;
      }
      assert leaf.key == v by { assert v[..width] == v && h.key[..width] == h.key; }
      ghost var i, s := 0, Items(tree);
      res, i := FindVictim(v, m, h, path, leaf);
      if res == null {
        return null;
      }
      Eliminate(res, h, i, path, leaf);
      assert Deleted(s, Items(tree), res, v, m);
    }

    lemma KeyMissing(v: Key, m: Mask, path: RPath, leaf: RTree)
      requires Valid() && |v| == width && tree == Plug(path, leaf) && leaf.Leaf?
      requires AtLeaf(path, leaf.key, leaf.chain, v, width) && leaf.key != v
      ensures forall y :: y in Items(tree) ==> !Victim(Items(tree), y, v, m)
    {
      Focus(path, leaf);
      NoVictim(path, leaf, v, m, width);
    }

    method Eliminate(tt: RadixNode, h: RadixNode, ghost i: nat, ghost path: RPath, ghost leaf: RTree)
      requires Valid() && tree == Plug(path, leaf) && leaf.Leaf? && h == RootOf(leaf)
      requires AtLeaf(path, leaf.key, leaf.chain, leaf.key, width)
      requires i < |leaf.chain| && tt == leaf.chain[i].id && !leaf.chain[i].root
      modifies this, repr
      ensures Valid() && repr == old(repr) - {tt, tt.twin} && !tt.active && tt.twin != null && !tt.twin.active
      ensures Items(tree) == old(Items(tree)) - {ItemAt(leaf, i)}
    {
      hide FlagsOk, RootsOk, TreeOk, AtLeaf;
      TwinThere(path, leaf, i);
      if h.duped != null {
        EliminateOne(tt, h, tt.twin, i, path, leaf);
      } else {
        EliminateLast(tt, tt.twin, path, leaf);
      }
    }

    lemma TwinThere(path: RPath, leaf: RTree, i: nat)
      requires Valid() && tree == Plug(path, leaf) && leaf.Leaf? && leaf.chain != []
      requires i < |leaf.chain| && !leaf.chain[i].root
      ensures leaf.chain[i].id.twin != null && (leaf.chain[0].id.duped == null <==> |leaf.chain| == 1)
    {
      Focus(path, leaf);
      assert ItemAt(leaf, i) in Items(leaf) by { assert leaf.chain[i] in leaf.chain; }
      assert Proper(ItemAt(leaf, i), top);
      assert EntryWired(leaf.key, leaf.chain, 0, Above(path, |path|, top));
    }
  }

  // A table with only a default route: a lookup of the all-ones key misses it.
  lemma OnesMissDefault(s: set<RItem>, w: nat, route: RadixNode)
    requires w > 0 && forall x :: x in s ==> x.root
    ensures ShadowedByOnes(s + {Item(Zeros(w), Net(0), false, route)}, Ones(w))
  {
    var x := Item(Zeros(w), Net(0), false, route);
    assert Zeros(w)[0] != Ones(w)[0];
    assert Zeros(w)[..0] == Ones(w)[..0];
    assert x in s + {x} && Matches(x, Ones(w));
  }

  // A new table into which one route has been entered.
  method OneRoute(w: nat, v: Key, m: Mask) returns (head: RadixHead, nodes: RadixNode, ghost s: set<RItem>)
    requires w > 0 && w % 8 == 0 && |v| == w && m.Net? && m.len <= w && Clear(v, m.len)
    ensures fresh(head) && fresh(head.repr) && head.Valid() && head.width == w
    ensures Items(head.tree) == s + {Item(v, m, false, nodes)} && forall x :: x in s ==> x.root && x.mask == Host
  {
    hide SlotsOk, FlagsOk, TreeOk, Sub;
    head := new RadixHead(w);
    s := Items(head.tree);
    var twin := new RadixNode(null);
    nodes := new RadixNode(twin);
    assert !HasRoute(s, v, m);
    var added := head.AddRoute(v, m, nodes);
  }

  // The same as a run: the answer is not that of a linear search.
  method DefaultMissed(w: nat) returns (head: RadixHead, res: RadixNode?)
    requires w > 0 && w % 8 == 0
    ensures head.Valid() && SomeMatch(Items(head.tree), Ones(w))
    ensures !LinearAnswer(Items(head.tree), res, res != null && res.root, Ones(w))
  {
    hide SlotsOk, FlagsOk, TreeOk, Sub;
    var nodes;
    ghost var s;
    head, nodes, s := OneRoute(w, Zeros(w), Net(0));
    OnesMissDefault(s, w, nodes);
    res := head.Match(Ones(w));
  }

  // A host route for either root key counts as there already, so rn_addroute never enters one.
  lemma RootKeysTaken(s: set<RItem>, w: nat)
    requires RootsOk(s, w)
    ensures HasRoute(s, Zeros(w), Host) && HasRoute(s, Ones(w), Host)
  {
    var z :| z in s && z.root && z.key == Zeros(w);
    var o :| o in s && o.root && o.key == Ones(w);
    assert z.mask == Host && o.mask == Host;
  }

  // Without a mask rn_delete takes a net route exactly when the key has no host route.
  lemma NoMaskTakesNet(s: set<RItem>, x: RItem, v: Key)
    requires Victim(s, x, v, Host) && AllItemsOk(s, |v|)
    ensures x.mask.Net? <==> forall y :: y in s && y.key == v ==> y.mask.Net?
  {
    assert ItemOk(x, |v|);
  }

  // A run: without a mask the net route of a key goes.
  method NetTaken(w: nat) returns (head: RadixHead, v: Key, nodes: RadixNode, res: RadixNode?)
    requires w > 0 && w % 8 == 0
    ensures head.Valid() && res == nodes && |v| == w && !HasRoute(Items(head.tree), v, Net(1))
  {
    hide SlotsOk, FlagsOk, TreeOk, Sub;
    ghost var s;
    v := Zeros(w)[0 := true];
    head, nodes, s := OneRoute(w, v, Net(1));
    NoRootThere(head, v);
    ghost var x := Item(v, Net(1), false, nodes);
    assert x in Items(head.tree) && Victim(Items(head.tree), x, v, Host);
    res := head.DeleteRoute(v, Host);
  }

  lemma NoRootThere(head: RadixHead, v: Key)
    requires head.Valid() && |v| == head.width > 1 && v == Zeros(|v|)[0 := true]
    ensures forall y :: y in Items(head.tree) && y.root ==> y.key != v
  {
    assert Zeros(|v|)[0] != v[0] && Ones(|v|)[1] != v[1];
  }

  // The leaf of a single route lies below another node than the top one.
  lemma LoneLeaf(path: RPath, leaf: RTree, w: nat)
    requires leaf.Leaf? && AtLeaf(path, leaf.key, leaf.chain, leaf.key, w) && path != [] && path[0].pre == []
    requires |leaf.chain| == 1 && !leaf.chain[0].root && RootsOk(Items(leaf) + SibItems(path), w)
    ensures |path| > 1 && !RootKey(leaf.key)
    ensures forall y :: y in Items(leaf) + SibItems(path) && y != ItemAt(leaf, 0) ==> y.key != leaf.key
  {
    var s, key := Items(leaf) + SibItems(path), leaf.key;
    forall y | y in s && y.key == key ensures y == ItemAt(leaf, 0) {
      var k := KeyEntry(path, leaf, key, w, y);
    }
    assert RootKey(key) ==> exists y :: y in s && y.root && y.key == key;
    if |path| == 1 {
      OnlyLeaf(path, leaf, w);
    }
  }

  // Below the top node alone hangs the leaf of a root key.
  lemma OnlyLeaf(path: RPath, leaf: RTree, w: nat)
    requires leaf.Leaf? && AtLeaf(path, leaf.key, leaf.chain, leaf.key, w) && |path| == 1 && path[0].pre == []
    requires RootsOk(Items(leaf) + SibItems(path), w)
    ensures RootKey(leaf.key)
  {
    var side := if path[0].right then Ones(w) else Zeros(w);
    var y :| y in Items(leaf) + SibItems(path) && y.root && y.key == side;
    FrameAt(path, Items(leaf), w, -1, 0);
    assert path[1..] == [] && SibItems(path) == Items(path[0].sib);
    forall z | z in Items(path[0].sib) ensures z.key != side {
      assert path[0].pre + [!path[0].right] <= z.key;
      assert z.key[0] == !path[0].right;
    }
    assert y in Items(leaf);
  }

  lemma VictimAt(path: RPath, leaf: RTree, v: Key, m: Mask, w: nat, i: nat)
    requires leaf.Leaf? && AtLeaf(path, leaf.key, leaf.chain, v, w) && leaf.key == v && i < |leaf.chain|
    requires match m case Net(_) => leaf.chain[i].mask == m case Host => i == 0
    ensures var s := Items(leaf) + SibItems(path);
      if leaf.chain[i].root then forall y :: y in s ==> !Victim(s, y, v, m) else Victim(s, ItemAt(leaf, i), v, m)
  {
    var s, x := Items(leaf) + SibItems(path), ItemAt(leaf, i);
    assert x in s && EntryOk(v, leaf.chain[i], Bit(path, -1)) by { assert leaf.chain[i] in leaf.chain; }
    forall y | y in s && y.key == v ensures y == x || (m == Host ==> Rank(y.mask, w) < Rank(x.mask, w)) {
      var k := KeyEntry(path, leaf, v, w, y);
    }
  }

  lemma KeyEntry(path: RPath, leaf: RTree, v: Key, w: nat, y: RItem) returns (k: nat)
    requires leaf.Leaf? && AtLeaf(path, leaf.key, leaf.chain, v, w)
    requires y in Items(leaf) + SibItems(path) && y.key == v
    ensures leaf.key == v && k < |leaf.chain| && y == ItemAt(leaf, k)
  {
    KeyFound(path, leaf, v, w, y);
    var e :| e in leaf.chain && y == Item(leaf.key, e.mask, e.root, e.id);
    k :| 0 <= k < |leaf.chain| && leaf.chain[k] == e;
  }

  lemma NoVictim(path: RPath, leaf: RTree, v: Key, m: Mask, w: nat)
    requires leaf.Leaf? && AtLeaf(path, leaf.key, leaf.chain, v, w)
    requires leaf.key == v ==> m.Net? && forall k :: 0 <= k < |leaf.chain| ==> leaf.chain[k].mask != m
    ensures forall y :: y in Items(leaf) + SibItems(path) ==> !Victim(Items(leaf) + SibItems(path), y, v, m)
  {
    hide AtLeaf;
    forall y | y in Items(leaf) + SibItems(path) && y.key == v ensures m.Net? && y.mask != m {
      var k := KeyEntry(path, leaf, v, w, y);
    }
  }
}
