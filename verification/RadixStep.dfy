// The steps of rn_addroute and rn_delete on the whole tree below the top node.

module RadixSteps {
  import opened RadixTree
  import opened RadixNodes
  import opened RadixEdits

  // The links around a subtree g that an edit inside g does not touch.
  ghost predicate Around(path: RPath, r: RadixNode?, top: RadixNode, repr: set<RadixNode>)
    reads repr
  {
    && SpineObjs(path) <= repr && SibObjs(path) <= repr
    && SpineWired(path, r, top) && SibsWired(path) && PathDistinct(path, {})
  }

  lemma FocusLinks(path: RPath, g: RTree, top: RadixNode, repr: set<RadixNode>)
    requires Sub(Plug(path, g), top, repr) && Plug(path, g).Node? && Plug(path, g).n == top
    ensures Around(path, RootOf(g), top, repr) && Sub(g, Above(path, |path|, top), repr)
    ensures Objs(g) !! SpineObjs(path) + SibObjs(path)
  {
    PlugObjs(path, g);
    PlugWired(path, g, top);
    PlugDistinct(path, g);
    if path != [] { InSpine(path, |path| - 1); }
  }

  lemma Refocus(path: RPath, g: RTree, top: RadixNode, repr: set<RadixNode>)
    requires Around(path, RootOf(g), top, repr) && Sub(g, Above(path, |path|, top), repr)
    requires Objs(g) !! SpineObjs(path) + SibObjs(path)
    requires if path == [] then g.Node? && g.n == top else path[0].n == top
    ensures Sub(Plug(path, g), top, repr) && Plug(path, g).Node? && Plug(path, g).n == top
  {
    PlugObjs(path, g);
    PlugWired(path, g, top);
    PlugDistinct(path, g);
  }

  lemma {:induction false} PlugSplit<I>(path: Path<I>, k: nat, f: Tree<I>)
    requires k <= |path|
    ensures Plug(path[..k], Plug(path[k..], f)) == Plug(path, f)
    ensures SibItems(path) == SibItems(path[..k]) + SibItems(path[k..])
  {
    if k == 0 {
      assert path[0..] == path;
    } else {
      assert path[..k][1..] == path[1..][..k - 1];
      assert path[1..][k - 1..] == path[k..];
      PlugSplit(path[1..], k - 1, f);
    }
  }

  // ---- climbing ----------------------------------------------------------------------------

  // From the node t above a leaf to the highest ancestor whose bit is at least len.
  method Climb(t: RadixNode, len: nat, top: RadixNode, ghost path: RPath, ghost f: RadixNode?,
               ghost s: set<Item<RadixNode>>, ghost w: nat)
    returns (x: RadixNode, ghost j: nat)
    requires path != [] && path[0].n == top && t == path[|path| - 1].n && SpineWired(path, f, top) && SpineApart(path)
    requires PathOk(path, s, w, -1) && len <= |path[|path| - 1].pre|
    ensures j < |path| && x == path[j].n && j == Home(path, len)
  {
    j := |path| - 1;
    x := t;
    assert SpineNodeWired(path[j], Below(path, j, f), Above(path, j, top));
    var up := x.p;
    while len <= up.b && x != top
      invariant j < |path| && x == path[j].n && up == Above(path, j, top) && len <= |path[j].pre|
      invariant SpineNodeWired(path[j], Below(path, j, f), Above(path, j, top))
      decreases j
    {
      x := up;
      if j > 0 { SpineDiffer(path, 0, j); }
      j := j - 1;
      assert SpineNodeWired(path[j], Below(path, j, f), Above(path, j, top));
      up := up.p;
    }
    if j > 0 {
      SpineDiffer(path, 0, j);
      assert SpineNodeWired(path[j - 1], Below(path, j - 1, f), Above(path, j - 1, top));
    }
    HomeAt(path, s, w, -1, len, j);
  }

  // ---- annotations -------------------------------------------------------------------------

  lemma ListFocus(path: RPath, j: nat, list: seq<Ann<RadixNode>>, f: RTree)
    requires j < |path|
    ensures var g := Plug(path[j..], f);
      g.Node? && g.n == path[j].n && g.anns == path[j].anns && Plug(path[..j], g) == Plug(path, f)
      && Plug(path[..j], g.(anns := list)) == Plug(path[j := path[j].(anns := list)], f)
  {
    var q := path[j := path[j].(anns := list)];
    PlugSplit(path, j, f);
    PlugSplit(q, j, f);
    assert q[..j] == path[..j];
    assert q[j..] == [q[j]] + path[j + 1..] && path[j..] == [path[j]] + path[j + 1..];
  }

  // Gives node j of the path another list.
  method Relist(x: RadixNode, list: seq<Ann<RadixNode>>, ghost j: nat, ghost path: RPath, ghost f: RTree,
                ghost top: RadixNode, ghost repr: set<RadixNode>)
    requires Sub(Plug(path, f), top, repr) && j < |path| && x == path[j].n && path[0].n == top
    modifies x
    ensures Sub(Plug(path[j := path[j].(anns := list)], f), top, repr)
  {
    ghost var g := Plug(path[j..], f);
    ListFocus(path, j, list, f);
    FocusLinks(path[..j], g, top, repr);
    SetList(x, list, g, Above(path[..j], j, top), repr);
    Refocus(path[..j], g.(anns := list), top, repr);
  }

  ghost function Flagged(leaf: RTree, i: nat, lifted: bool): RTree
    requires leaf.Leaf? && i < |leaf.chain|
  {
    Leaf(leaf.key, leaf.chain[i := leaf.chain[i].(lifted := lifted)])
  }

  method SetFlag(n: RadixNode, lifted: bool, ghost i: nat, ghost leaf: RTree, ghost p: RadixNode,
                 ghost repr: set<RadixNode>)
    requires Sub(leaf, p, repr) && leaf.Leaf? && i < |leaf.chain| && n == leaf.chain[i].id
    modifies n
    ensures Sub(Flagged(leaf, i, lifted), p, repr)
  {
    SubLeaf(leaf, p, repr);
    ghost var chain, c := leaf.chain, Flagged(leaf, i, lifted).chain;
    assert forall k :: 0 <= k < |c| ==> c[k].id == chain[k].id;
    n.lifted := lifted;
    forall k | 0 <= k < |c| ensures EntryWired(leaf.key, c, k, p) {
      assert old(EntryWired(leaf.key, chain, k, p));
    }
  }

  // Sets whether entry i of the leaf at the end of the path is lifted.
  method Reflag(n: RadixNode, lifted: bool, ghost i: nat, ghost path: RPath, ghost leaf: RTree,
                ghost top: RadixNode, ghost repr: set<RadixNode>)
    requires Sub(Plug(path, leaf), top, repr) && path != [] && path[0].n == top
    requires leaf.Leaf? && i < |leaf.chain| && n == leaf.chain[i].id
    modifies n
    ensures Sub(Plug(path, Flagged(leaf, i, lifted)), top, repr)
  {
    FocusLinks(path, leaf, top, repr);
    SetFlag(n, lifted, i, leaf, Above(path, |path|, top), repr);
    FlaggedObjs(leaf, i, lifted);
    Refocus(path, Flagged(leaf, i, lifted), top, repr);
  }

  lemma FlaggedObjs(leaf: RTree, i: nat, lifted: bool)
    requires leaf.Leaf? && i < |leaf.chain|
    ensures Objs(Flagged(leaf, i, lifted)) == Objs(leaf) && RootOf(Flagged(leaf, i, lifted)) == RootOf(leaf)
  {
    assert forall k :: 0 <= k < |leaf.chain| ==> Flagged(leaf, i, lifted).chain[k].id == leaf.chain[k].id;
  }

  // Where an annotation of the given index goes in a node's list.
  method FindPlace(x: RadixNode, len: nat) returns (k: nat)
    requires forall a :: a in x.mklist ==> a.len != len
    ensures k <= |x.mklist| && AnnsMiss(x.mklist[..k], len) && (k < |x.mklist| ==> x.mklist[k].len < len)
  {
    k := 0;
    while k < |x.mklist| && x.mklist[k].len >= len
      invariant k <= |x.mklist| && AnnsMiss(x.mklist[..k], len)
    {
      if x.mklist[k].len == len {
        assert false;  // rn_addroute: Non-unique normal route
      }
      k := k + 1;
    }
  }

  lemma {:induction false} HomeEnd(path: RPath, s: set<Item<RadixNode>>, w: nat, up: int, len: nat)
    requires PathOk(path, s, w, up) && path != [] && len > |path[|path| - 1].pre|
    ensures Home(path, len) == |path|
  {
    if |path| > 1 {
      BitsIncrease(path, s, w, up, 0, |path| - 1);
      HomeEnd(path[1..], s, w, |path[0].pre|, len);
    }
  }

  // Adds the new route n, entry i of the leaf at the end of the path, to the list of its highest
  // possible ancestor.
  method LiftRoute(n: RadixNode, t: RadixNode, m: Mask, top: RadixNode, ghost i: nat, ghost path: RPath,
                   ghost leaf: RTree,
                   ghost s: set<Item<RadixNode>>, ghost w: nat, ghost repr: set<RadixNode>)
    requires Sub(Plug(path, leaf), top, repr) && path != [] && path[0].n == top && t == path[|path| - 1].n
    requires leaf.Leaf? && i < |leaf.chain| && leaf.chain[i] == NewEntry(n, m)
    requires PathOk(path, s, w, -1)
    requires m.Net? && Home(path, m.len) < |path| ==> forall a :: a in path[Home(path, m.len)].anns ==> a.len != m.len
    modifies repr
    ensures Sub(Plug(Lift(path, Item(leaf.key, m, false, n)),
        Flagged(leaf, i, m.Net? && m.len <= |path[|path| - 1].pre|)), top, repr)
  {
    ParentBit(path, leaf, top, repr);
    if m == Host || m.len > t.b {
      if m.Net? { HomeEnd(path, s, w, -1, m.len); }
      assert Flagged(leaf, i, false) == leaf;
      return;
    }
    Annotate(t, Ann(m.len, n), top, path, leaf, s, w, repr);
    assert n in Objs(leaf) by { assert leaf.chain[i].id in Objs(leaf); }
    Reflag(n, true, i, Lift(path, Item(leaf.key, m, false, n)), leaf, top, repr);
  }

  lemma ParentBit(path: RPath, f: RTree, top: RadixNode, repr: set<RadixNode>)
    requires Sub(Plug(path, f), top, repr) && path != [] && path[0].n == top
    ensures path[|path| - 1].n.b == |path[|path| - 1].pre| && Objs(f) <= repr
    ensures SpineWired(path, RootOf(f), top) && SpineApart(path) && SpineObjs(path) <= repr
  {
    FocusLinks(path, f, top, repr);
    assert SpineNodeWired(path[|path| - 1], Below(path, |path| - 1, RootOf(f)), Above(path, |path| - 1, top));
  }

  // Puts the annotation into the list of the highest ancestor of t whose bit is at least its index.
  method Annotate(t: RadixNode, a: Ann<RadixNode>, top: RadixNode, ghost path: RPath, ghost f: RTree,
                  ghost s: set<Item<RadixNode>>, ghost w: nat, ghost repr: set<RadixNode>)
    requires Sub(Plug(path, f), top, repr) && path != [] && path[0].n == top && t == path[|path| - 1].n
    requires PathOk(path, s, w, -1) && a.len <= |path[|path| - 1].pre|
    requires Home(path, a.len) < |path| ==> forall b :: b in path[Home(path, a.len)].anns ==> b.len != a.len
    modifies repr
    ensures var j := Home(path, a.len);
      j < |path| && Sub(Plug(path[j := path[j].(anns := InsertAnn(path[j].anns, a))], f), top, repr)
  {
    ParentBit(path, f, top, repr);
    var x, j := Climb(t, a.len, top, path, RootOf(f), s, w);
    assert SpineNodeWired(path[j], Below(path, j, RootOf(f)), Above(path, j, top));
    InSpine(path, j);
    var k := FindPlace(x, a.len);
    InsertAnnAt(path[j].anns, a, k);
    Relist(x, x.mklist[..k] + [a] + x.mklist[k..], j, path, f, top, repr);
  }

  // Takes the annotation out of that list again.
  method Unannotate(t: RadixNode, a: Ann<RadixNode>, top: RadixNode, ghost path: RPath, ghost f: RTree,
                    ghost s: set<Item<RadixNode>>, ghost w: nat, ghost repr: set<RadixNode>)
    requires Sub(Plug(path, f), top, repr) && path != [] && path[0].n == top && t == path[|path| - 1].n
    requires PathOk(path, s, w, -1) && a.len <= |path[|path| - 1].pre|
    requires Home(path, a.len) < |path| ==> a in path[Home(path, a.len)].anns
    modifies repr
    ensures var j := Home(path, a.len);
      j < |path| && Sub(Plug(path[j := path[j].(anns := RemoveAnn(path[j].anns, a))], f), top, repr)
  {
    ParentBit(path, f, top, repr);
    var x, j := Climb(t, a.len, top, path, RootOf(f), s, w);
    assert SpineNodeWired(path[j], Below(path, j, RootOf(f)), Above(path, j, top));
    InSpine(path, j);
    var k := FindAnn(x, a);
    RemoveAnnAt(path[j].anns, a, k);
    Relist(x, x.mklist[..k] + x.mklist[k + 1..], j, path, f, top, repr);
  }

  method FindAnn(x: RadixNode, a: Ann<RadixNode>) returns (k: nat)
    requires a in x.mklist
    ensures k < |x.mklist| && x.mklist[k] == a && a !in x.mklist[..k]
  {
    k := 0;
    while k < |x.mklist| && x.mklist[k] != a
      invariant k <= |x.mklist| && a !in x.mklist[..k] && a in x.mklist[k..]
    {
      k := k + 1;
    }
    if k == |x.mklist| {
      assert false;  // rn_delete: couldn't find our annotation
    }
  }

  // ---- edits at the end of a path ------------------------------------------------------------

  // The last node of the path and what hangs below it, as one subtree.
  lemma LastFocus(path: RPath, f: RTree, f': RTree)
    requires path != []
    ensures var fr, p := path[|path| - 1], path[..|path| - 1];
      var g := Fill(fr, f);
      && g.Node? && g.n == fr.n && Child(g, fr.right) == f && Plug(path, f) == Plug(p, g)
      && Plug(path, f') == Plug(p, WithChild(g, fr.right, f'))
  {
    var fr, p := path[|path| - 1], path[..|path| - 1];
    assert path == p + [fr];
    PlugSnoc(p, fr, f);
    PlugSnoc(p, fr, f');
  }

  // After an edit inside g that may have brought in the objects of new.
  lemma Reform(p: RPath, g: RTree, g': RTree, top: RadixNode, repr: set<RadixNode>, new_: set<RadixNode>)
    requires Around(p, RootOf(g), top, repr) && Sub(g', Above(p, |p|, top), repr + new_)
    requires Objs(g) !! SpineObjs(p) + SibObjs(p) && Objs(g') <= Objs(g) + new_ && new_ !! repr
    requires RootOf(g') == RootOf(g) && if p == [] then g'.Node? && g'.n == top else p[0].n == top
    ensures Sub(Plug(p, g'), top, repr + new_)
  {
    Refocus(p, g', top, repr + new_);
  }

  lemma WithChildObjs(g: RTree, right: bool, c: RTree, new_: set<RadixNode>)
    requires g.Node? && Objs(c) <= Objs(Child(g, right)) + new_
    ensures Objs(WithChild(g, right, c)) <= Objs(g) + new_
  {
  }

  method SpliceAt(x: RadixNode, n: RadixNode, right: bool, t: RadixNode, tt: RadixNode, v: Key, m: Mask, b: nat,
                  ghost path: RPath, ghost f: RTree, ghost top: RadixNode, ghost repr: set<RadixNode>)
    requires Sub(Plug(path, f), top, repr) && path != [] && path[0].n == top
    requires n == path[|path| - 1].n && right == path[|path| - 1].right && x == RootOf(f)
    requires t !in repr && tt !in repr && t != tt && b < |v|
    modifies x, n, t, tt
    ensures Sub(Plug(path, Pair(t, tt, v, m, b, f)), top, repr + {t, tt})
  {
    hide Sub, Wired, Distinct, Around;
    ghost var p, g, f' := path[..|path| - 1], Fill(path[|path| - 1], f), Pair(t, tt, v, m, b, f);
    PairObjs(t, tt, v, m, b, f);
    EditReady(path, f, f', top, repr, {t, tt});
    SpliceIn(x, n, right, t, tt, v, m, b, g, Above(p, |p|, top), repr);
    Reform(p, g, WithChild(g, right, f'), top, repr, {t, tt});
  }

  // All that is needed around an edit of the last node of the path and what hangs below it.
  lemma EditReady(path: RPath, f: RTree, f': RTree, top: RadixNode, repr: set<RadixNode>, new_: set<RadixNode>)
    requires Sub(Plug(path, f), top, repr) && path != [] && path[0].n == top
    requires Objs(f') <= Objs(f) + new_
    ensures var p, fr := path[..|path| - 1], path[|path| - 1];
      var g := Fill(fr, f);
      && g.Node? && g.n == fr.n && Child(g, fr.right) == f
      && Plug(path, f') == Plug(p, WithChild(g, fr.right, f'))
      && Around(p, RootOf(g), top, repr) && Sub(g, Above(p, |p|, top), repr) && Above(p, |p|, top) in repr
      && Objs(g) !! SpineObjs(p) + SibObjs(p) && Objs(WithChild(g, fr.right, f')) <= Objs(g) + new_
      && (if p == [] then g.n == top else p[0].n == top)
  {
    var p, fr := path[..|path| - 1], path[|path| - 1];
    var g := Fill(fr, f);
    LastFocus(path, f, f');
    FocusLinks(p, g, top, repr);
    PlugObjs(path, f);
    InSpine(path, 0);
    AboveIn(p, top, repr);
    WithChildObjs(g, fr.right, f', new_);
  }

  lemma AboveIn(p: RPath, top: RadixNode, repr: set<RadixNode>)
    requires SpineObjs(p) <= repr && top in repr
    ensures Above(p, |p|, top) in repr
  {
    if p != [] { InSpine(p, |p| - 1); }
  }

  // Which child of its parent the subtree f is.
  lemma SideOf(path: RPath, f: RTree, top: RadixNode, repr: set<RadixNode>)
    requires Sub(Plug(path, f), top, repr) && path != [] && path[0].n == top
    ensures RootOf(f) != null && RootOf(f).p == path[|path| - 1].n && (f.Leaf? ==> ChainDistinct(f.chain))
    ensures path[|path| - 1].n.l != RootOf(f) <==> path[|path| - 1].right
    ensures path[|path| - 1].n.r == RootOf(f) <==> path[|path| - 1].right
    ensures path[|path| - 1].right ==> path[|path| - 1].n.l == RootOf(path[|path| - 1].sib)
    ensures !path[|path| - 1].right ==> path[|path| - 1].n.r == RootOf(path[|path| - 1].sib)
  {
    var p, fr := path[..|path| - 1], path[|path| - 1];
    LastFocus(path, f, f);
    FocusLinks(p, Fill(fr, f), top, repr);
    SubChild(Fill(fr, f), fr.right, Above(p, |p|, top), repr);
    if f.Leaf? { SubLeaf(f, fr.n, repr); }
    SubRoot(fr.sib, fr.n, repr);
    SubRoot(f, fr.n, repr);
  }

  // Promotes the general routes below the new node t that ends the path.
  method PromoteAt(t: RadixNode, x: RadixNode, right: bool, ghost w: nat, ghost path: RPath, ghost g: RTree,
                   ghost top: RadixNode, ghost repr: set<RadixNode>)
    requires Sub(Plug(path, g), top, repr) && path != [] && path[0].n == top
    requires g.Node? && g.n == t && g.anns == [] && x == RootOf(Child(g, right))
    requires TreeOk(Child(g, right), w, Bit(path, -1)) && Bit(path, -1) < |g.pre|
    modifies repr
    ensures var f, c := Child(g, right), |g.pre|;
      Sub(Plug(path, WithChild(g.(anns := Handed(f, Bit(path, -1), c)), right, Kept(f, c))), top, repr)
  {
    ghost var f, c, up := Child(g, right), |g.pre|, Bit(path, -1);
    ghost var g' := WithChild(g.(anns := Handed(f, up, c)), right, Kept(f, c));
    FocusLinks(path, g, top, repr);
    KeptObjs(f, c);
    Promote(t, x, right, up, w, g, Above(path, |path|, top), repr);
    assert Objs(g') == Objs(g);
    Refocus(path, g', top, repr);
  }

  // Every node of the path tests the bit it should and has the next one on v's side.
  ghost predicate Turns(path: RPath, h: RadixNode, v: Key)
    reads SpineObjs(path)
  {
    forall i :: 0 <= i < |path| ==>
      var n := path[i].n;
      0 <= n.b < |v| && n.b == |path[i].pre| && v[n.b] == path[i].right
      && Below(path, i, h) == (if v[n.b] then n.r else n.l)
  }

  lemma SpineTurns(path: RPath, h: RadixNode, top: RadixNode, v: Key)
    requires SpineWired(path, h, top) && Follows(path, v)
    ensures Turns(path, h, v)
  {
    forall i | 0 <= i < |path|
      ensures var n := path[i].n;
        0 <= n.b < |v| && n.b == |path[i].pre| && v[n.b] == path[i].right
        && Below(path, i, h) == (if v[n.b] then n.r else n.l)
    {
      assert SpineNodeWired(path[i], Below(path, i, h), Above(path, i, top));
    }
  }

  // The last node of v's path that tests a bit before d, and what hangs below it on v's side.
  method FindAbove(v: Key, d: nat, top: RadixNode, ghost path: RPath, ghost h: RadixNode)
    returns (p: RadixNode, x: RadixNode, ghost k: nat)
    requires path != [] && path[0].n == top && path[0].pre == [] && Turns(path, h, v)
    requires h.b < 0 && d > 0
    ensures 0 < k <= |path| && p == path[k - 1].n && x == Below(path, k - 1, h) && |path[k - 1].pre| < d
    ensures k < |path| ==> |path[k].pre| >= d
    ensures p.b == |path[k - 1].pre| && v[p.b] == path[k - 1].right
  {
    p, k := top, 1;
    assert Below(path, 0, h) == if v[p.b] then p.r else p.l;
    x := if v[p.b] then p.r else p.l;
    while x.b >= 0 && d > x.b
      invariant 0 < k <= |path| && p == path[k - 1].n && x == Below(path, k - 1, h) && |path[k - 1].pre| < d
      decreases |path| - k
    {
      p, k := x, k + 1;
      assert Below(path, k - 1, h) == if v[p.b] then p.r else p.l;
      x := if v[p.b] then p.r else p.l;
    }
  }
}
