// The in-place edits that rn_addroute and rn_delete are made of.  Each works at the end of a
// path: a walk from the top of the tree to the subtree being changed.

module RadixEdits {
  import opened RadixTree
  import opened RadixNodes

  // Everything below is stated for a subtree g whose root stays the same object: the links of
  // the rest of the tree are then untouched.  The parent of the top node is the top node itself.
  ghost predicate Sub(g: RTree, p: RadixNode, repr: set<RadixNode>)
    reads repr
  {
    && Objs(g) <= repr && Wired(g, p) && Distinct(g)
    && if g.Leaf? then p !in Objs(g) else p !in Objs(g.l) && p !in Objs(g.r)
  }

  ghost function Child(g: RTree, right: bool): RTree
    requires g.Node?
  {
    if right then g.r else g.l
  }

  ghost function WithChild(g: RTree, right: bool, c: RTree): RTree
    requires g.Node?
  {
    if right then Node(g.n, g.pre, g.anns, g.l, c) else Node(g.n, g.pre, g.anns, c, g.r)
  }

  lemma SubChild(g: RTree, right: bool, p: RadixNode, repr: set<RadixNode>)
    requires Sub(g, p, repr) && g.Node?
    ensures Sub(Child(g, right), g.n, repr) && Sub(Child(g, !right), g.n, repr)
    ensures NodeWired(g.n, g.pre, g.anns, RootOf(g.l), RootOf(g.r), p)
    ensures Objs(Child(g, right)) !! Objs(Child(g, !right))
    ensures Objs(g) == {g.n} + Objs(Child(g, right)) + Objs(Child(g, !right))
  {
  }

  lemma SubLeaf(leaf: RTree, p: RadixNode, repr: set<RadixNode>)
    requires Sub(leaf, p, repr) && leaf.Leaf?
    ensures ChainWired(leaf.key, leaf.chain, p) && ChainDistinct(leaf.chain) && EntryWired(leaf.key, leaf.chain, 0, p)
    ensures Objs(leaf) == ChainObjs(leaf.chain) <= repr && p !in ChainObjs(leaf.chain)
  {
  }

  lemma LeafSub(leaf: RTree, p: RadixNode, repr: set<RadixNode>)
    requires leaf.Leaf? && ChainWired(leaf.key, leaf.chain, p) && ChainDistinct(leaf.chain)
    requires ChainObjs(leaf.chain) <= repr && p !in ChainObjs(leaf.chain)
    ensures Sub(leaf, p, repr)
  {
  }

  ghost predicate ChainDistinct(chain: seq<REntry>) {
    forall i, j :: 0 <= i < j < |chain| ==> chain[i].id != chain[j].id
  }

  // ---- lists of annotations ------------------------------------------------------------------

  lemma {:induction false} HomeAt(path: RPath, s: set<Item<RadixNode>>, w: nat, up: int, len: nat, j: nat)
    requires PathOk(path, s, w, up) && j < |path| && len <= |path[j].pre|
    requires j > 0 ==> len > |path[j - 1].pre|
    ensures Home(path, len) == j
  {
    if j > 0 {
      if j > 1 { BitsIncrease(path, s, w, up, 0, j - 1); }
      assert path[1..][j - 1] == path[j];
      assert j > 1 ==> path[1..][j - 2] == path[j - 1];
      HomeAt(path[1..], s, w, |path[0].pre|, len, j - 1);
    }
  }

  lemma {:induction false} InsertAnnAt(anns: seq<Ann<RadixNode>>, a: Ann<RadixNode>, k: nat)
    requires k <= |anns| && AnnsMiss(anns[..k], a.len) && (k < |anns| ==> anns[k].len <= a.len)
    ensures InsertAnn(anns, a) == anns[..k] + [a] + anns[k..]
  {
    if k > 0 {
      assert anns[..k][0] == anns[0];
      assert anns[1..][..k - 1] == anns[..k][1..] && anns[1..][k - 1..] == anns[k..];
      InsertAnnAt(anns[1..], a, k - 1);
      assert anns[..k] == [anns[0]] + anns[1..][..k - 1];
    }
  }

  lemma {:induction false} RemoveAnnAt(anns: seq<Ann<RadixNode>>, a: Ann<RadixNode>, k: nat)
    requires k < |anns| && anns[k] == a && a !in anns[..k]
    ensures RemoveAnn(anns, a) == anns[..k] + anns[k + 1..]
  {
    if k > 0 {
      assert anns[..k][0] == anns[0];
      assert anns[1..][..k - 1] == anns[..k][1..];
      RemoveAnnAt(anns[1..], a, k - 1);
    }
  }

  // Gives a node another list.
  method SetList(n: RadixNode, list: seq<Ann<RadixNode>>, ghost g: RTree, ghost p: RadixNode,
                 ghost repr: set<RadixNode>)
    requires Sub(g, p, repr) && g.Node? && n == g.n
    modifies n
    ensures Sub(g.(anns := list), p, repr)
  {
    assert old(Wired(g.l, n)) && old(Wired(g.r, n));
    n.mklist := list;
    assert Wired(g.l, n) && Wired(g.r, n);
  }

  // Makes y the child of g's root; the caller vouches for what hangs below y.
  method SetChild(n: RadixNode, right: bool, y: RadixNode, ghost g: RTree, ghost c: RTree, ghost p: RadixNode,
                  ghost repr: set<RadixNode>)
    requires g.Node? && n == g.n && n in repr && NodeWired(n, g.pre, g.anns, RootOf(g.l), RootOf(g.r), p)
    requires Sub(Child(g, !right), n, repr) && Sub(c, n, repr) && Objs(c) !! Objs(Child(g, !right))
    requires p !in Objs(c) && p !in Objs(Child(g, !right)) && y == RootOf(c)
    modifies n
    ensures Sub(WithChild(g, right, c), p, repr)
  {
    if right {
      n.r := y;
    } else {
      n.l := y;
    }
    assert Wired(Child(g, !right), n) && Wired(c, n);
  }

  // ---- chains of equal keys ------------------------------------------------------------------

  function NewEntry(n: RadixNode, m: Mask): REntry { Entry(n, m, false, false) }

  lemma ChainPutDistinct(chain: seq<REntry>, i: nat, e: REntry)
    requires i <= |chain| && ChainDistinct(chain) && e.id !in ChainObjs(chain)
    ensures ChainDistinct(chain[..i] + [e] + chain[i..])
    ensures ChainObjs(chain[..i] + [e] + chain[i..]) == ChainObjs(chain) + {e.id}
  {
    var c := chain[..i] + [e] + chain[i..];
    forall k | 0 <= k < |chain| ensures chain[k].id in ChainObjs(chain) && chain[k].id in ChainObjs(c) {
      assert c[if k < i then k else k + 1].id == chain[k].id;
    }
    assert c[i].id == e.id;
    assert forall k :: 0 <= k < |c| ==> c[k] == if k < i then chain[k] else if k == i then e else chain[k - 1];
  }

  // Puts the slot in front of the head h of a chain below p.
  method PutHead(h: RadixNode, nodes: RadixNode, m: Mask, p: RadixNode, ghost key: Key, ghost chain: seq<REntry>)
    requires ChainWired(key, chain, p) && ChainDistinct(chain) && h == chain[0].id && nodes !in ChainObjs(chain)
    modifies nodes, h
    ensures ChainWired(key, [NewEntry(nodes, m)] + chain, p)
  {
    ghost var c := [NewEntry(nodes, m)] + chain;
    assert EntryWired(key, chain, 0, p);
    nodes.SetLeaf(h.key, m, h, p);
    h.p := nodes;
    forall i | 0 <= i < |c| ensures EntryWired(key, c, i, p) {
      if i > 0 {
        assert c[i] == chain[i - 1] && old(EntryWired(key, chain, i - 1, p));
      }
    }
  }

  // Puts the slot behind entry t = chain[i - 1].
  method PutAfter(t: RadixNode, nodes: RadixNode, m: Mask, ghost p: RadixNode, ghost key: Key,
                  ghost chain: seq<REntry>, ghost i: nat)
    requires ChainWired(key, chain, p) && ChainDistinct(chain) && nodes !in ChainObjs(chain)
    requires 0 < i <= |chain| && t == chain[i - 1].id
    modifies nodes, ChainObjs(chain)
    ensures ChainWired(key, chain[..i] + [NewEntry(nodes, m)] + chain[i..], p)
  {
    ghost var c := chain[..i] + [NewEntry(nodes, m)] + chain[i..];
    assert EntryWired(key, chain, i - 1, p);
    nodes.SetLeaf(t.key, m, t.duped, t);
    t.duped := nodes;
    if nodes.duped != null {
      nodes.duped.p := nodes;
    }
    forall k | 0 <= k < |c| ensures EntryWired(key, c, k, p) {
      if k < i {
        assert c[k] == chain[k] && old(EntryWired(key, chain, k, p));
      } else if k > i {
        assert c[k] == chain[k - 1] && old(EntryWired(key, chain, k - 1, p));
      }
    }
  }

  // Links the slot in as the head of the chain below g's root.
  method InsertHead(h: RadixNode, nodes: RadixNode, m: Mask, right: bool, ghost g: RTree, ghost leaf: RTree,
                    ghost p: RadixNode, ghost repr: set<RadixNode>)
    requires Sub(g, p, repr) && g.Node? && leaf == Child(g, right) && leaf.Leaf? && h == RootOf(leaf)
    requires nodes !in repr && nodes != p
    modifies nodes, h, g.n
    ensures Sub(WithChild(g, right, Leaf(leaf.key, [NewEntry(nodes, m)] + leaf.chain)), p, repr + {nodes})
  {
    ghost var e := NewEntry(nodes, m);
    SubChild(g, right, p, repr);
    SubLeaf(leaf, g.n, repr);
    ChainPutDistinct(leaf.chain, 0, e);
    assert leaf.chain[..0] + [e] + leaf.chain[0..] == [e] + leaf.chain;
    var x := h.p;
    PutHead(h, nodes, m, x, leaf.key, leaf.chain);
    SetChild(x, right, nodes, g, Leaf(leaf.key, [e] + leaf.chain), p, repr + {nodes});
  }

  // ---- splicing --------------------------------------------------------------------------------

  // Hangs the subtree f below another parent.
  method SetParent(x: RadixNode, p': RadixNode, ghost f: RTree, ghost p: RadixNode)
    requires Wired(f, p) && Distinct(f) && x == RootOf(f) && p !in Objs(f) && p' !in Objs(f)
    modifies x
    ensures Wired(f, p')
  {
    if f.Leaf? {
      assert EntryWired(f.key, f.chain, 0, p);
    }
    x.p := p';
    if f.Leaf? {
      forall i | 0 <= i < |f.chain| ensures EntryWired(f.key, f.chain, i, p') {
        assert old(EntryWired(f.key, f.chain, i, p));
        assert i > 0 ==> f.chain[i].id != f.chain[0].id;
      }
    } else {
      assert old(Wired(f.l, f.n)) && old(Wired(f.r, f.n));
      assert Wired(f.l, f.n) && Wired(f.r, f.n);
    }
  }

  // Sets up the pair of slots as a leaf below an internal node that tests bit b; the other
  // child of that node is x.
  method SetPair(t: RadixNode, tt: RadixNode, x: RadixNode, p: RadixNode, v: Key, m: Mask, b: nat)
    requires t != tt && b < |v|
    requires t != p
    modifies t, tt
    ensures ChainWired(v, [NewEntry(tt, m)], t)
    ensures NodeWired(t, v[..b], [], if v[b] then x else tt, if v[b] then tt else x, p)
  {
    tt.SetLeaf(v, m, null, t);
    t.b, t.mklist, t.active, t.root, t.p := b, [], true, false, p;
    if !v[b] {
      t.l, t.r := tt, x;
    } else {
      t.r, t.l := tt, x;
    }
  }

  // The new internal node with the new leaf on v's side and f on the other.
  ghost function Pair(t: RadixNode, tt: RadixNode, v: Key, m: Mask, b: nat, f: RTree): RTree
    requires b < |v|
  {
    Fill(Frame(t, v[..b], [], v[b], f), Leaf(v, [NewEntry(tt, m)]))
  }

  lemma PairObjs(t: RadixNode, tt: RadixNode, v: Key, m: Mask, b: nat, f: RTree)
    requires b < |v|
    ensures Objs(Pair(t, tt, v, m, b, f)) == Objs(f) + {t, tt}
  {
    var leaf := Leaf(v, [NewEntry(tt, m)]);
    assert leaf.chain[0].id in ChainObjs(leaf.chain);
    assert Objs(leaf) == {tt};
  }

  lemma PairDistinct(t: RadixNode, tt: RadixNode, v: Key, m: Mask, b: nat, f: RTree)
    requires Distinct(f) && t !in Objs(f) && tt !in Objs(f) && t != tt && b < |v|
    ensures Distinct(Pair(t, tt, v, m, b, f)) && Objs(Pair(t, tt, v, m, b, f)) == Objs(f) + {t, tt}
  {
    var leaf := Leaf(v, [NewEntry(tt, m)]);
    assert leaf.chain[0].id in ChainObjs(leaf.chain);
    assert Objs(leaf) == {tt};
  }

  // Hangs the subtree f and a new leaf below a new internal node.
  method HangPair(x: RadixNode, p: RadixNode, t: RadixNode, tt: RadixNode, v: Key, m: Mask, b: nat, ghost f: RTree,
                  ghost repr: set<RadixNode>)
    requires Sub(f, p, repr) && x == RootOf(f) && p !in Objs(f)
    requires t !in Objs(f) && tt !in Objs(f) && t != tt && t != p && b < |v|
    modifies x, t, tt
    ensures Wired(Pair(t, tt, v, m, b, f), p)
  {
    SetPair(t, tt, x, p, v, m, b);
    SetParent(x, t, f, p);
    assert Wired(Leaf(v, [NewEntry(tt, m)]), t);
  }

  // Splices the pair of slots in above the child of g's root.
  method SpliceIn(x: RadixNode, n: RadixNode, right: bool, t: RadixNode, tt: RadixNode, v: Key, m: Mask, b: nat,
                  ghost g: RTree, ghost p: RadixNode, ghost repr: set<RadixNode>)
    requires Sub(g, p, repr) && g.Node? && n == g.n && x == RootOf(Child(g, right))
    requires t !in repr && tt !in repr && t != tt && p != t && p != tt && b < |v|
    modifies x, n, t, tt
    ensures Sub(WithChild(g, right, Pair(t, tt, v, m, b, Child(g, right))), p, repr + {t, tt})
  {
    ghost var f := Child(g, right);
    SubChild(g, right, p, repr);
    PairDistinct(t, tt, v, m, b, f);
    HangPair(x, n, t, tt, v, m, b, f, repr);
    SetChild(n, right, t, g, Pair(t, tt, v, m, b, f), p, repr + {t, tt});
  }

  // ---- handing annotations to a new parent, and back -------------------------------------------

  // cur is the chain with its first i entries marked for a parent that tests bit c.
  ghost predicate Marked(cur: seq<REntry>, chain: seq<REntry>, i: nat, c: int) {
    && |cur| == |chain|
    && forall k :: 0 <= k < |cur| ==>
         cur[k] == chain[k].(lifted := if k < i then chain[k].mask.Net? && chain[k].mask.len <= c else chain[k].lifted)
  }

  lemma MarkedIds(cur: seq<REntry>, chain: seq<REntry>, i: nat, c: int)
    requires Marked(cur, chain, i, c) && ChainDistinct(chain)
    ensures ChainDistinct(cur) && ChainObjs(cur) == ChainObjs(chain)
  {
    assert forall k :: 0 <= k < |cur| ==> cur[k].id == chain[k].id;
  }

  lemma MarkedEnds(cur: seq<REntry>, chain: seq<REntry>, c: int)
    ensures Marked(chain, chain, 0, c)
    ensures Marked(cur, chain, |chain|, c) ==> cur == MarkTo(chain, c)
  {
  }

  // Marks entry i, the object n, and leaves the links alone.
  method MarkEntry(n: RadixNode, lifted: bool, ghost key: Key, ghost cur: seq<REntry>, ghost chain: seq<REntry>,
                   ghost i: nat, ghost c: int, ghost p: RadixNode)
    returns (next: RadixNode?, ghost cur': seq<REntry>)
    requires ChainWired(key, cur, p) && Marked(cur, chain, i, c) && ChainDistinct(chain)
    requires i < |chain| && n == chain[i].id
    requires lifted == (chain[i].mask.Net? && chain[i].mask.len <= c)
    modifies n
    ensures ChainWired(key, cur', p) && Marked(cur', chain, i + 1, c)
    ensures next == (if i + 1 < |chain| then chain[i + 1].id else null)
  {
    MarkedIds(cur, chain, i, c);
    assert EntryWired(key, cur, i, p);
    cur' := cur[i := chain[i].(lifted := lifted)];
    next := n.duped;
    n.lifted := lifted;
    forall k | 0 <= k < |cur'| ensures EntryWired(key, cur', k, p) {
      assert old(EntryWired(key, cur, k, p));
    }
  }

  lemma SelectStep(chain: seq<REntry>, i: nat, up: int, c: nat, list: seq<Ann<RadixNode>>)
    requires i < |chain| && list + Select(chain[i..], up, c) == Select(chain, up, c)
    ensures var e := chain[i];
      var list' := if e.mask.Net? && up < e.mask.len <= c then list + [Ann(e.mask.len, e.id)] else list;
      list' + Select(chain[i + 1..], up, c) == Select(chain, up, c)
  {
    assert chain[i..][0] == chain[i] && chain[i..][1..] == chain[i + 1..];
  }

  // Moves the annotations of a chain that a new node testing bit c may carry to that node.
  method PromoteChain(h: RadixNode, c: nat, ghost up: int, ghost key: Key, ghost chain: seq<REntry>, ghost p: RadixNode)
    returns (list: seq<Ann<RadixNode>>)
    requires ChainWired(key, chain, p) && ChainDistinct(chain) && h == chain[0].id && up < c
    requires forall i :: 0 <= i < |chain| ==> EntryOk(key, chain[i], up)
    modifies ChainObjs(chain)
    ensures ChainWired(key, MarkTo(chain, c), p) && list == Select(chain, up, c)
  {
    var x: RadixNode? := h;
    list := [];
    ghost var i, cur := 0, chain;
    while x != null
      invariant i <= |chain| && x == (if i < |chain| then chain[i].id else null)
      invariant ChainWired(key, cur, p) && Marked(cur, chain, i, c)
      invariant list + Select(chain[i..], up, c) == Select(chain, up, c)
      decreases |chain| - i
    {
      assert EntryWired(key, cur, i, p) && EntryOk(key, chain[i], up);
      SelectStep(chain, i, up, c, list);
      var lift := x.lifted;
      if x.mask.Net? && x.mask.len <= c && !x.lifted {
        list := list + [Ann(x.mask.len, x)];
        lift := true;
      }
      x, cur := MarkEntry(x, lift, key, cur, chain, i, c, p);
      i := i + 1;
    }
    MarkedEnds(cur, chain, c);
  }

  lemma {:induction false} SelectRest(chain: seq<REntry>, i: nat, up: int, c: nat)
    requires i <= |chain|
    ensures i < |chain| ==>
      var e, rest := chain[i], Select(chain[i + 1..], up, c);
      Select(chain[i..], up, c) == if e.mask.Net? && up < e.mask.len <= c then [Ann(e.mask.len, e.id)] + rest else rest
    ensures Select(chain[i..], up, c) == [] ==>
      forall k :: i <= k < |chain| && chain[k].mask.Net? ==> !(up < chain[k].mask.len <= c)
    decreases |chain| - i
  {
    if i < |chain| {
      assert chain[i..][0] == chain[i] && chain[i..][1..] == chain[i + 1..];
      SelectRest(chain, i + 1, up, c);
    }
  }

  lemma MarkedStops(cur: seq<REntry>, key: Key, chain: seq<REntry>, i: nat, up: int, c: nat)
    requires Marked(cur, chain, i, up) && i <= |chain| && up < c
    requires forall k :: 0 <= k < |chain| ==> EntryOk(key, chain[k], c)
    requires Select(chain[i..], up, c) == []
    ensures cur == MarkTo(chain, up)
  {
    SelectRest(chain, i, up, c);
    forall k | 0 <= k < |cur| ensures cur[k] == MarkTo(chain, up)[k] {
      assert EntryOk(key, chain[k], c);
    }
  }

  // Takes the annotations in list back from a parent that tested bit c.  The list names exactly
  // the entries it comes from, in order, so nothing is left over ("Orphaned Mask").
  method DemoteChain(h: RadixNode, list: seq<Ann<RadixNode>>, ghost up: int, ghost c: nat,
                     ghost key: Key, ghost chain: seq<REntry>, ghost p: RadixNode)
    requires ChainWired(key, chain, p) && ChainDistinct(chain) && h == chain[0].id && up < c
    requires forall i :: 0 <= i < |chain| ==> EntryOk(key, chain[i], c)
    requires list == Select(chain, up, c)
    modifies ChainObjs(chain)
    ensures ChainWired(key, MarkTo(chain, up), p)
  {
    var x: RadixNode? := h;
    var k := 0;
    ghost var i, cur := 0, chain;
    while k < |list| && x != null
      invariant i <= |chain| && k <= |list| && x == (if i < |chain| then chain[i].id else null)
      invariant ChainWired(key, cur, p) && Marked(cur, chain, i, up)
      invariant list[k..] == Select(chain[i..], up, c)
      decreases |chain| - i
    {
      assert EntryWired(key, cur, i, p) && EntryOk(key, chain[i], c);
      SelectRest(chain, i, up, c);
      assert list[k..][0] == list[k] && list[k..][1..] == list[k + 1..];
      MineIsFirst(key, chain, i, up, c, list[k]);
      var lifted := x.lifted;
      if lifted && list[k].id == x {
        lifted := false;
        k := k + 1;
      }
      x, cur := MarkEntry(x, lifted, key, cur, chain, i, up, p);
      i := i + 1;
    }
    if k < |list| {
      assert false;  // rn_delete: Orphaned Mask
    }
    assert list[k..] == [];
    MarkedStops(cur, key, chain, i, up, c);
  }

  // The first annotation left belongs to the entry looked at exactly when that entry has one.
  lemma MineIsFirst(key: Key, chain: seq<REntry>, i: nat, up: int, c: nat, a: Ann<RadixNode>)
    requires i < |chain| && ChainDistinct(chain) && EntryOk(key, chain[i], c)
    requires Select(chain[i..], up, c) != [] && Select(chain[i..], up, c)[0] == a
    ensures chain[i].lifted && a.id == chain[i].id <==> chain[i].mask.Net? && up < chain[i].mask.len <= c
  {
    SelectRest(chain, i, up, c);
    if !(chain[i].mask.Net? && up < chain[i].mask.len <= c) {
      SelectMember(chain[i + 1..], up, c, a);
      var e :| e in chain[i + 1..] && e.id == a.id;
      var k :| 0 <= k < |chain[i + 1..]| && chain[i + 1..][k] == e;
      assert chain[i + 1 + k] == e;
    }
  }

  lemma Join(g: RTree, p: RadixNode, repr: set<RadixNode>)
    requires g.Node? && g.n in repr && NodeWired(g.n, g.pre, g.anns, RootOf(g.l), RootOf(g.r), p)
    requires Sub(g.l, g.n, repr) && Sub(g.r, g.n, repr) && Objs(g.l) !! Objs(g.r)
    requires g.n !in Objs(g.l) && g.n !in Objs(g.r) && p !in Objs(g.l) && p !in Objs(g.r)
    ensures Sub(g, p, repr)
  {
  }

  lemma KeptObjs(f: RTree, c: nat)
    requires Distinct(f)
    ensures Objs(Kept(f, c)) == Objs(f) && Distinct(Kept(f, c)) && RootOf(Kept(f, c)) == RootOf(f)
  {
    if f.Leaf? {
      MarkObjs(f.chain, c);
    }
  }

  lemma MergedObjs(f: RTree, anns: seq<Ann<RadixNode>>, up: int)
    requires Distinct(f)
    ensures Objs(Merged(f, anns, up)) == Objs(f) && Distinct(Merged(f, anns, up))
    ensures RootOf(Merged(f, anns, up)) == RootOf(f)
  {
    if f.Leaf? {
      MarkObjs(f.chain, up);
    }
  }

  lemma MarkObjs(chain: seq<REntry>, c: int)
    ensures ChainObjs(MarkTo(chain, c)) == ChainObjs(chain)
    ensures ChainDistinct(chain) ==> ChainDistinct(MarkTo(chain, c))
  {
    assert forall k :: 0 <= k < |chain| ==> MarkTo(chain, c)[k].id == chain[k].id;
  }

  // The position of the first annotation of index at most c.
  method FindSplit(x: RadixNode, c: nat) returns (k: nat)
    ensures k == SplitAt(x.mklist, c)
  {
    k := 0;
    while k < |x.mklist| && x.mklist[k].len > c
      invariant k <= SplitAt(x.mklist, c)
    {
      k := k + 1;
    }
  }

  // Takes from a subtree the annotations that a new parent testing bit c may carry.
  method TakeBelow(x: RadixNode, c: nat, ghost up: int, ghost w: nat, ghost f: RTree, ghost p: RadixNode,
                   ghost repr: set<RadixNode>)
    returns (list: seq<Ann<RadixNode>>)
    requires Sub(f, p, repr) && x == RootOf(f) && TreeOk(f, w, up) && up < c
    modifies Objs(f)
    ensures Sub(Kept(f, c), p, repr) && list == Handed(f, up, c)
  {
    KeptObjs(f, c);
    if f.Leaf? {
      SubLeaf(f, p, repr);
    }
    if x.b < 0 {
      list := PromoteChain(x, c, up, f.key, f.chain, p);
    } else {
      var k := FindSplit(x, c);
      list := x.mklist[k..];
      SetList(x, x.mklist[..k], f, p, repr);
    }
  }

  // Promotes the general routes below the other child of a new node t.
  method Promote(t: RadixNode, x: RadixNode, right: bool, ghost up: int, ghost w: nat,
                 ghost g: RTree, ghost p: RadixNode, ghost repr: set<RadixNode>)
    requires Sub(g, p, repr) && g.Node? && g.n == t && g.anns == [] && x == RootOf(Child(g, right))
    requires TreeOk(Child(g, right), w, up) && up < |g.pre|
    modifies t, Objs(Child(g, right))
    ensures var f, c := Child(g, right), |g.pre|;
      Sub(WithChild(g.(anns := Handed(f, up, c)), right, Kept(f, c)), p, repr)
  {
    ghost var f, c := Child(g, right), |g.pre|;
    SubChild(g, right, p, repr);
    KeptObjs(f, c);
    ghost var g1 := WithChild(g, right, Kept(f, c));
    var list := TakeBelow(x, t.b, up, w, f, t, repr);
    Join(g1, p, repr);
    SetList(t, list, g1, p, repr);
  }

  // Gives the annotations of a removed parent back to the subtree that takes its place.
  method Demote(x: RadixNode, list: seq<Ann<RadixNode>>, ghost up: int, ghost c: nat, ghost w: nat,
                ghost f: RTree, ghost p: RadixNode, ghost repr: set<RadixNode>)
    requires Sub(f, p, repr) && x == RootOf(f) && TreeOk(f, w, c) && up < c
    requires f.Leaf? ==> list == Select(f.chain, up, c)
    modifies Objs(f)
    ensures Sub(Merged(f, list, up), p, repr)
  {
    MergedObjs(f, list, up);
    if f.Leaf? {
      SubLeaf(f, p, repr);
    }
    if x.b >= 0 {
      SetList(x, x.mklist + list, f, p, repr);
    } else {
      DemoteChain(x, list, up, c, f.key, f.chain, p);
    }
  }

  // ---- taking entries and nodes out -------------------------------------------------------------

  lemma ChainCutDistinct(chain: seq<REntry>, i: nat)
    requires i < |chain| && ChainDistinct(chain)
    ensures ChainDistinct(chain[..i] + chain[i + 1..])
    ensures ChainObjs(chain[..i] + chain[i + 1..]) == ChainObjs(chain) - {chain[i].id}
  {
    var c := chain[..i] + chain[i + 1..];
    assert forall k :: 0 <= k < |c| ==> c[k] == if k < i then chain[k] else chain[k + 1];
    forall k | 0 <= k < |chain| && k != i ensures chain[k].id in ChainObjs(c) && chain[k].id != chain[i].id {
      assert c[if k < i then k else k - 1].id == chain[k].id;
    }
    forall j, k | 0 <= j < k < |c| ensures c[j].id != c[k].id {
      assert c[j] == chain[if j < i then j else j + 1] && c[k] == chain[if k < i then k else k + 1];
    }
  }

  // Entry k when the links of its neighbours go past entry i.
  ghost predicate SkipWired(key: Key, chain: seq<REntry>, i: nat, k: nat, p: RadixNode)
    requires i < |chain| && k < |chain|
    reads chain[k].id
  {
    var n, next, prev := chain[k].id, if k + 1 == i then k + 2 else k + 1, if k == i + 1 then k - 2 else k - 1;
    && n.b == LeafIndex(chain[k].mask) && n.key == key && n.mask == chain[k].mask
    && n.root == chain[k].root && n.lifted == chain[k].lifted && n.active
    && n.duped == (if next < |chain| then chain[next].id else null)
    && n.p == (if prev < 0 then p else chain[prev].id)
  }

  lemma SkippedWired(key: Key, chain: seq<REntry>, i: nat, k: nat, p: RadixNode)
    requires i < |chain| && k + 1 < |chain| && SkipWired(key, chain, i, if k < i then k else k + 1, p)
    ensures EntryWired(key, chain[..i] + chain[i + 1..], k, p)
  {
    var c := chain[..i] + chain[i + 1..];
    assert c[k] == chain[if k < i then k else k + 1];
    assert k > 0 ==> c[k - 1] == chain[if k - 1 < i then k - 1 else k];
    assert k + 1 < |c| ==> c[k + 1] == chain[if k + 1 < i then k + 1 else k + 2];
  }

  lemma SkippedAll(key: Key, chain: seq<REntry>, i: nat, p: RadixNode)
    requires i < |chain| && |chain| > 1 && forall j :: 0 <= j < |chain| && j != i ==> SkipWired(key, chain, i, j, p)
    ensures ChainWired(key, chain[..i] + chain[i + 1..], p)
  {
    hide SkipWired, EntryWired;
    var c := chain[..i] + chain[i + 1..];
    forall k | 0 <= k < |c| ensures EntryWired(key, c, k, p) {
      SkippedWired(key, chain, i, k, p);
    }
  }

  // The second entry becomes the first.
  method TakeHead(tt: RadixNode, n: RadixNode, ghost leaf: RTree, ghost repr: set<RadixNode>) returns (x: RadixNode)
    requires Sub(leaf, n, repr) && leaf.Leaf? && |leaf.chain| > 1 && tt == RootOf(leaf)
    modifies Objs(leaf)
    ensures Sub(Leaf(leaf.key, leaf.chain[1..]), n, repr) && x == leaf.chain[1].id
    ensures Objs(Leaf(leaf.key, leaf.chain[1..])) <= Objs(leaf)
  {
    hide Sub, Wired, Distinct;
    ghost var key, chain := leaf.key, leaf.chain;
    SubLeaf(leaf, n, repr);
    ChainCutDistinct(chain, 0);
    assert chain[..0] + chain[1..] == chain[1..];
    assert EntryWired(key, chain, 0, n);
    x := tt.duped;
    x.p := n;
    assert ChainWired(key, chain[1..], n) by {
      forall j | 0 <= j < |chain| && j != 0 ensures SkipWired(key, chain, 0, j, n) {
        assert old(EntryWired(key, chain, j, n));
        assert j != 1 ==> chain[j].id != chain[1].id;
      }
      SkippedAll(key, chain, 0, n);
    }
    LeafSub(Leaf(key, chain[1..]), n, repr);
  }

  // Takes the head tt out of the chain below g's root.
  method CutHead(tt: RadixNode, n: RadixNode, right: bool, ghost g: RTree, ghost leaf: RTree, ghost p: RadixNode,
                 ghost repr: set<RadixNode>) returns (x: RadixNode)
    requires Sub(g, p, repr) && g.Node? && leaf == Child(g, right) && leaf.Leaf? && |leaf.chain| > 1
    requires tt == RootOf(leaf) && n == g.n
    modifies Objs(leaf), n
    ensures Sub(WithChild(g, right, Leaf(leaf.key, leaf.chain[1..])), p, repr) && x == leaf.chain[1].id
  {
    ghost var key, chain := leaf.key, leaf.chain;
    SubChild(g, right, p, repr);
    x := TakeHead(tt, n, leaf, repr);
    SetChild(n, right, x, g, Leaf(key, chain[1..]), p, repr);
  }

  // Takes entry i, the object tt, out from behind its predecessor q.
  method CutAfter(q: RadixNode, tt: RadixNode, ghost i: nat, ghost leaf: RTree, ghost p: RadixNode,
                  ghost repr: set<RadixNode>)
    requires Sub(leaf, p, repr) && leaf.Leaf? && 0 < i < |leaf.chain|
    requires q == leaf.chain[i - 1].id && tt == leaf.chain[i].id
    modifies Objs(leaf)
    ensures Sub(Leaf(leaf.key, leaf.chain[..i] + leaf.chain[i + 1..]), p, repr)
  {
    hide Sub, Wired, Distinct, Objs;
    ghost var key, chain := leaf.key, leaf.chain;
    ghost var c := chain[..i] + chain[i + 1..];
    SubLeaf(leaf, p, repr);
    ChainCutDistinct(chain, i);
    assert EntryWired(key, chain, i, p);
    q.duped := tt.duped;
    if tt.duped != null {
      tt.duped.p := q;
    }
    forall j | 0 <= j < |chain| && j != i ensures SkipWired(key, chain, i, j, p) {
      assert old(EntryWired(key, chain, j, p));
      assert j != i - 1 ==> chain[j].id != q;
      assert i + 1 < |chain| && j != i + 1 ==> chain[j].id != chain[i + 1].id;
    }
    SkippedAll(key, chain, i, p);
    LeafSub(Leaf(key, c), p, repr);
  }

  // Splices out the child t of g's root and puts x, the child of t on the side kept, in its place.
  method SpliceOut(n: RadixNode, right: bool, x: RadixNode, ghost kept: bool, ghost g: RTree, ghost p: RadixNode,
                   ghost repr: set<RadixNode>)
    requires Sub(g, p, repr) && g.Node? && n == g.n && Child(g, right).Node?
    requires x == RootOf(Child(Child(g, right), kept))
    modifies n, x
    ensures Sub(WithChild(g, right, Child(Child(g, right), kept)), p, repr)
  {
    ghost var h := Child(g, right);
    SubChild(g, right, p, repr);
    SubChild(h, kept, n, repr);
    ghost var f := Child(h, kept);
    SetParent(x, n, f, h.n);
    SetChild(n, right, x, g, f, p, repr);
  }

  // The subtree f with another object as its root.
  ghost function Reslot(f: RTree, t: RadixNode): RTree
    requires f.Node?
  {
    Node(t, f.pre, f.anns, f.l, f.r)
  }

  method CopyFields(x: RadixNode, t: RadixNode, ghost h: RTree, ghost n: RadixNode)
    requires h.Node? && NodeWired(x, h.pre, h.anns, RootOf(h.l), RootOf(h.r), n) && x != n && t != n && t != x
    modifies t
    ensures NodeWired(t, h.pre, h.anns, RootOf(h.l), RootOf(h.r), n)
  {
    t.b, t.mklist, t.active, t.root := x.b, x.mklist, x.active, x.root;
    t.l, t.r, t.p := x.l, x.r, x.p;
  }

  // Copies the internal node x to the unused slot t and hangs its children below it.
  method CopySlot(x: RadixNode, t: RadixNode, ghost h: RTree, ghost n: RadixNode, ghost repr: set<RadixNode>)
    requires Sub(h, n, repr) && h.Node? && h.n == x && n !in Objs(h)
    requires t in repr && t !in Objs(h) && n != t
    modifies t, Objs(h) - {x}
    ensures Sub(Reslot(h, t), n, repr)
  {
    SubChild(h, true, n, repr);
    SubRoot(h.l, x, repr);
    SubRoot(h.r, x, repr);
    CopyFields(x, t, h, n);
    Rehang(x.l, t, h.l, x, repr);
    Rehang(x.r, t, h.r, x, repr);
    Join(Reslot(h, t), n, repr);
  }

  lemma SubRoot(f: RTree, p: RadixNode, repr: set<RadixNode>)
    requires Sub(f, p, repr)
    ensures RootOf(f) != null && RootOf(f) in Objs(f)
  {
    if f.Leaf? { assert f.chain[0].id in ChainObjs(f.chain); }
  }

  method Rehang(c: RadixNode, t: RadixNode, ghost f: RTree, ghost x: RadixNode, ghost repr: set<RadixNode>)
    requires Sub(f, x, repr) && c == RootOf(f) && x !in Objs(f) && t !in Objs(f)
    modifies c
    ensures Sub(f, t, repr)
  {
    SetParent(c, t, f, x);
  }

  // Copies the child x of g's root to the unused slot t and links the copy in.
  method MoveSlot(n: RadixNode, right: bool, x: RadixNode, t: RadixNode, ghost g: RTree, ghost p: RadixNode,
                  ghost repr: set<RadixNode>)
    requires Sub(g, p, repr) && g.Node? && n == g.n && Child(g, right).Node? && x == Child(g, right).n
    requires t in repr && t !in Objs(g) && p != t
    modifies n, t, Objs(Child(g, right))
    ensures Sub(WithChild(g, right, Reslot(Child(g, right), t)), p, repr)
  {
    SubChild(g, right, p, repr);
    CopySlot(x, t, Child(g, right), n, repr);
    SetChild(n, right, t, g, Reslot(Child(g, right), t), p, repr);
  }
}
