// The routing tree of netinet/radix.c as a value: a Patricia tree whose leaves are chains of
// routes with the same key and whose internal nodes carry the masks lifted to them.

module RadixTree {

  // A key is the bit string that starts at the head's offset; bit 0 is the highest order bit.
  type Key = seq<bool>

  // A missing mask means a host route (or one of the two root leaves).  Net(len) is the
  // contiguous mask whose index is len.
  datatype Mask = Host | Net(len: nat)

  datatype Entry<I> = Entry(id: I, mask: Mask, root: bool, lifted: bool)

  datatype Ann<I> = Ann(len: nat, id: I)

  // An internal node tests bit |pre|; pre is the prefix shared by all keys below it.
  datatype Tree<I> =
    | Leaf(key: Key, chain: seq<Entry<I>>)
    | Node(n: I, pre: Key, anns: seq<Ann<I>>, l: Tree<I>, r: Tree<I>)

  datatype Item<I> = Item(key: Key, mask: Mask, root: bool, id: I)

  ghost function ChainItems<I>(key: Key, chain: seq<Entry<I>>): set<Item<I>> {
    set e | e in chain :: Item(key, e.mask, e.root, e.id)
  }

  ghost function Items<I>(t: Tree<I>): set<Item<I>> {
    match t
    case Leaf(key, chain) => ChainItems(key, chain)
    case Node(_, _, _, l, r) => Items(l) + Items(r)
  }

  ghost function Internals<I>(t: Tree<I>): set<I> {
    match t
    case Leaf(_, _) => {}
    case Node(n, _, _, l, r) => {n} + Internals(l) + Internals(r)
  }

  // Specificity: a host route beats every mask, a longer mask beats a shorter one.
  function Rank(m: Mask, w: nat): int {
    match m
    case Host => w + 1
    case Net(len) => len
  }

  ghost predicate Clear(key: Key, from: nat) {
    forall j :: from <= j < |key| ==> !key[j]
  }

  // A route may be lifted off its leaf exactly when its index is at most its parent's bit.
  ghost predicate EntryOk<I>(key: Key, e: Entry<I>, up: int) {
    match e.mask
    case Host => !e.lifted
    case Net(len) => len <= |key| && Clear(key, len) && !e.root && (e.lifted <==> len <= up)
  }

  ghost predicate ChainSorted<I>(chain: seq<Entry<I>>, w: nat) {
    forall i, j :: 0 <= i < j < |chain| ==> Rank(chain[i].mask, w) > Rank(chain[j].mask, w)
  }

  ghost predicate LeafOk<I>(key: Key, chain: seq<Entry<I>>, w: nat, up: int) {
    && |key| == w
    && chain != []
    && (forall i :: 0 <= i < |chain| ==> EntryOk(key, chain[i], up))
    && ChainSorted(chain, w)
  }

  ghost predicate AnnsSorted<I>(anns: seq<Ann<I>>) {
    forall i, j :: 0 <= i < j < |anns| ==> anns[i].len > anns[j].len
  }

  ghost predicate Carries<I>(s: set<Item<I>>, a: Ann<I>) {
    exists x :: x in s && x.mask == Net(a.len) && x.id == a.id
  }

  // The list of a node that tests bit b below a parent that tests bit up: exactly the masks
  // below it whose index is above up and at most b, most specific first.
  ghost predicate AnnsOk<I>(anns: seq<Ann<I>>, up: int, b: nat, s: set<Item<I>>) {
    && AnnsSorted(anns)
    && (forall a :: a in anns ==> up < a.len <= b && Carries(s, a))
    && (forall x :: x in s && x.mask.Net? && up < x.mask.len <= b ==> Ann(x.mask.len, x.id) in anns)
  }

  ghost predicate Under<I>(s: set<Item<I>>, pre: Key) {
    forall x :: x in s ==> pre <= x.key
  }

  ghost predicate TreeOk<I>(t: Tree<I>, w: nat, up: int) {
    match t
    case Leaf(key, chain) => LeafOk(key, chain, w, up)
    case Node(_, pre, anns, l, r) =>
      && up < |pre| < w
      && Under(Items(l), pre + [false])
      && Under(Items(r), pre + [true])
      && AnnsOk(anns, up, |pre|, Items(t))
      && TreeOk(l, w, |pre|)
      && TreeOk(r, w, |pre|)
  }

  // ---- paths ----------------------------------------------------------------------------

  // One step of a walk down the tree: the node left, the side taken and the other subtree.
  datatype Frame<I> = Frame(n: I, pre: Key, anns: seq<Ann<I>>, right: bool, sib: Tree<I>)

  type Path<I> = seq<Frame<I>>

  ghost function Fill<I>(fr: Frame<I>, f: Tree<I>): Tree<I> {
    if fr.right then Node(fr.n, fr.pre, fr.anns, fr.sib, f) else Node(fr.n, fr.pre, fr.anns, f, fr.sib)
  }

  ghost function Plug<I>(path: Path<I>, f: Tree<I>): Tree<I> {
    if path == [] then f else Fill(path[0], Plug(path[1..], f))
  }

  ghost function SibItems<I>(path: Path<I>): set<Item<I>> {
    if path == [] then {} else Items(path[0].sib) + SibItems(path[1..])
  }

  ghost function Bit<I>(path: Path<I>, up: int): int {
    if path == [] then up else |path[|path| - 1].pre|
  }

  ghost predicate FrameOk<I>(fr: Frame<I>, inner: set<Item<I>>, w: nat, up: int) {
    && up < |fr.pre| < w
    && Under(inner, fr.pre + [fr.right])
    && Under(Items(fr.sib), fr.pre + [!fr.right])
    && AnnsOk(fr.anns, up, |fr.pre|, inner + Items(fr.sib))
    && TreeOk(fr.sib, w, |fr.pre|)
  }

  // Every node of the path is in order, given that the subtree at its end holds the items s.
  ghost predicate PathOk<I>(path: Path<I>, s: set<Item<I>>, w: nat, up: int) {
    path != [] ==>
      && FrameOk(path[0], s + SibItems(path[1..]), w, up)
      && PathOk(path[1..], s, w, |path[0].pre|)
  }

  lemma {:induction false} PlugItems<I>(path: Path<I>, f: Tree<I>)
    ensures Items(Plug(path, f)) == Items(f) + SibItems(path)
  {
    if path != [] {
      PlugItems(path[1..], f);
    }
  }

  lemma {:induction false} PlugOk<I>(path: Path<I>, f: Tree<I>, w: nat, up: int)
    ensures TreeOk(Plug(path, f), w, up) <==> PathOk(path, Items(f), w, up) && TreeOk(f, w, Bit(path, up))
  {
    if path != [] {
      var fr, rest := path[0], path[1..];
      PlugItems(rest, f);
      PlugOk(rest, f, w, |fr.pre|);
      assert Bit(path, up) == Bit(rest, |fr.pre|);
      var t := Plug(path, f);
      assert Items(t) == Items(f) + SibItems(rest) + Items(fr.sib);
    }
  }

  lemma {:induction false} PlugSnoc<I>(path: Path<I>, fr: Frame<I>, f: Tree<I>)
    ensures Plug(path + [fr], f) == Plug(path, Fill(fr, f))
    ensures SibItems(path + [fr]) == SibItems(path) + Items(fr.sib)
  {
    if path == [] {
      assert [fr][1..] == [];
    } else {
      assert (path + [fr])[1..] == path[1..] + [fr];
      PlugSnoc(path[1..], fr, f);
    }
  }

  lemma {:induction false} PathSnoc<I>(path: Path<I>, fr: Frame<I>, s: set<Item<I>>, w: nat, up: int)
    ensures PathOk(path + [fr], s, w, up)
       <==> PathOk(path, s + Items(fr.sib), w, up) && FrameOk(fr, s, w, Bit(path, up))
  {
    var all := path + [fr];
    if path == [] {
      assert all[1..] == [];
      assert s + SibItems(all[1..]) == s;
    } else {
      assert all[1..] == path[1..] + [fr];
      PathSnoc(path[1..], fr, s, w, |path[0].pre|);
      PlugSnoc(path[1..], fr, fr.sib);
      assert s + SibItems(all[1..]) == s + Items(fr.sib) + SibItems(path[1..]);
      assert Bit(path, up) == Bit(path[1..], |path[0].pre|);
    }
  }

  // ---- lifting an annotation and taking it back --------------------------------------------

  ghost function InsertAnn<I>(anns: seq<Ann<I>>, a: Ann<I>): seq<Ann<I>> {
    if anns == [] || anns[0].len <= a.len then [a] + anns else [anns[0]] + InsertAnn(anns[1..], a)
  }

  ghost function RemoveAnn<I>(anns: seq<Ann<I>>, a: Ann<I>): seq<Ann<I>> {
    if anns == [] then [] else if anns[0] == a then anns[1..] else [anns[0]] + RemoveAnn(anns[1..], a)
  }

  // The position of the highest node of the path whose bit is at least len.
  ghost function Home<I>(path: Path<I>, len: nat): (j: nat)
    ensures j <= |path|
  {
    if path == [] || len <= |path[0].pre| then 0 else 1 + Home(path[1..], len)
  }

  ghost function Lift<I>(path: Path<I>, x: Item<I>): (q: Path<I>)
    ensures |q| == |path|
  {
    if x.mask.Host? || Home(path, x.mask.len) == |path| then path else
      var j := Home(path, x.mask.len);
      path[j := path[j].(anns := InsertAnn(path[j].anns, Ann(x.mask.len, x.id)))]
  }

  ghost function Unlift<I>(path: Path<I>, x: Item<I>): (q: Path<I>)
    ensures |q| == |path|
  {
    if x.mask.Host? || Home(path, x.mask.len) == |path| then path else
      var j := Home(path, x.mask.len);
      path[j := path[j].(anns := RemoveAnn(path[j].anns, Ann(x.mask.len, x.id)))]
  }

  ghost predicate ItemOk<I>(x: Item<I>, w: nat) {
    |x.key| == w && (x.mask.Net? ==> x.mask.len <= w && Clear(x.key, x.mask.len) && !x.root)
  }

  ghost predicate AllItemsOk<I>(s: set<Item<I>>, w: nat) {
    forall x :: x in s ==> ItemOk(x, w)
  }

  ghost predicate Fits<I>(path: Path<I>, key: Key) {
    forall i :: 0 <= i < |path| ==> path[i].pre + [path[i].right] <= key
  }

  ghost predicate SameRoute<I>(x: Item<I>, y: Item<I>) {
    x.key == y.key && x.mask == y.mask
  }

  lemma {:induction false} TreeItemsOk<I>(t: Tree<I>, w: nat, up: int)
    requires TreeOk(t, w, up)
    ensures AllItemsOk(Items(t), w)
  {
    match t
    case Leaf(key, chain) =>
      forall x | x in Items(t) ensures ItemOk(x, w) {
        var e :| e in chain && x == Item(key, e.mask, e.root, e.id);
        assert EntryOk(key, e, up);
      }
    case Node(_, pre, _, l, r) =>
      TreeItemsOk(l, w, |pre|);
      TreeItemsOk(r, w, |pre|);
  }

  lemma {:induction false} InsertAnnMember<I>(anns: seq<Ann<I>>, a: Ann<I>, y: Ann<I>)
    ensures y in InsertAnn(anns, a) <==> y == a || y in anns
  {
    if anns != [] && anns[0].len > a.len {
      InsertAnnMember(anns[1..], a, y);
      assert anns == [anns[0]] + anns[1..];
    }
  }

  lemma {:induction false} RemoveAnnMember<I>(anns: seq<Ann<I>>, a: Ann<I>, y: Ann<I>)
    requires AnnsSorted(anns)
    ensures y in RemoveAnn(anns, a) <==> y != a && y in anns
  {
    if anns != [] {
      RemoveAnnMember(anns[1..], a, y);
      assert anns == [anns[0]] + anns[1..];
      if y in anns[1..] { HeadIsLongest(anns, y); }
    }
  }

  lemma HeadIsLongest<I>(anns: seq<Ann<I>>, y: Ann<I>)
    requires AnnsSorted(anns) && anns != [] && y in anns[1..]
    ensures anns[0].len > y.len
  {
    var k :| 0 <= k < |anns[1..]| && anns[1..][k] == y;
    assert anns[k + 1] == y;
  }

  lemma {:induction false} InsertAnnSorted<I>(anns: seq<Ann<I>>, a: Ann<I>)
    requires AnnsSorted(anns)
    requires forall y :: y in anns ==> y.len != a.len
    ensures AnnsSorted(InsertAnn(anns, a))
  {
    if anns != [] && anns[0].len > a.len {
      InsertAnnSorted(anns[1..], a);
      var t := InsertAnn(anns[1..], a);
      forall k | 0 <= k < |t| ensures anns[0].len > t[k].len {
        InsertAnnMember(anns[1..], a, t[k]);
        if t[k] in anns[1..] { HeadIsLongest(anns, t[k]); }
      }
    }
  }

  lemma {:induction false} RemoveAnnSorted<I>(anns: seq<Ann<I>>, a: Ann<I>)
    requires AnnsSorted(anns)
    ensures AnnsSorted(RemoveAnn(anns, a))
  {
    if anns != [] && anns[0] != a {
      RemoveAnnSorted(anns[1..], a);
      var t := RemoveAnn(anns[1..], a);
      forall k | 0 <= k < |t| ensures anns[0].len > t[k].len {
        RemoveAnnMember(anns[1..], a, t[k]);
        HeadIsLongest(anns, t[k]);
      }
    }
  }

  // Below a node that tests bit b two routes with the same mask of index at most b are one.
  lemma SameMaskSameKey<I>(x: Item<I>, y: Item<I>, pre: Key, w: nat)
    requires ItemOk(x, w) && ItemOk(y, w)
    requires pre <= x.key && pre <= y.key
    requires x.mask == y.mask && x.mask.Net? && x.mask.len <= |pre|
    ensures x.key == y.key
  {
    forall j | 0 <= j < w ensures x.key[j] == y.key[j] {
      if j < |pre| {
        assert x.key[j] == pre[j] == y.key[j];
      }
    }
  }

  lemma AnnsGrow<I>(anns: seq<Ann<I>>, up: int, pre: Key, s: set<Item<I>>, x: Item<I>, w: nat)
    requires AnnsOk(anns, up, |pre|, s)
    requires Under(s + {x}, pre) && AllItemsOk(s + {x}, w)
    requires x.mask.Net? && up < x.mask.len <= |pre|
    requires forall y :: y in s ==> !SameRoute(x, y)
    ensures AnnsOk(InsertAnn(anns, Ann(x.mask.len, x.id)), up, |pre|, s + {x})
  {
    var a := Ann(x.mask.len, x.id);
    forall b | b in anns ensures b.len != a.len {
      if b.len == a.len {
        var y :| y in s && y.mask == Net(b.len) && y.id == b.id;
        SameMaskSameKey(x, y, pre, w);
        assert SameRoute(x, y);
      }
    }
    InsertAnnSorted(anns, a);
    InsertAnnMember(anns, a, a);
    forall y | y in s && y.mask.Net? && up < y.mask.len <= |pre|
      ensures Ann(y.mask.len, y.id) in InsertAnn(anns, a)
    {
      InsertAnnMember(anns, a, Ann(y.mask.len, y.id));
    }
    forall b | b in InsertAnn(anns, a) ensures up < b.len <= |pre| && Carries(s + {x}, b) {
      InsertAnnMember(anns, a, b);
      if b == a {
        assert x in s + {x};
      } else {
        var y :| y in s && y.mask == Net(b.len) && y.id == b.id;
        assert y in s + {x};
      }
    }
  }

  lemma AnnsShrink<I>(anns: seq<Ann<I>>, up: int, pre: Key, s: set<Item<I>>, x: Item<I>, w: nat)
    requires AnnsOk(anns, up, |pre|, s)
    requires Under(s, pre) && AllItemsOk(s, w) && x in s
    requires x.mask.Net? && up < x.mask.len <= |pre|
    ensures AnnsOk(RemoveAnn(anns, Ann(x.mask.len, x.id)), up, |pre|, s - {x})
  {
    var a := Ann(x.mask.len, x.id);
    RemoveAnnSorted(anns, a);
    var t := RemoveAnn(anns, a);
    assert a in anns;
    forall b | b in t ensures up < b.len <= |pre| && Carries(s - {x}, b) {
      RemoveAnnMember(anns, a, b);
      var y :| y in s && y.mask == Net(b.len) && y.id == b.id;
      assert y in s - {x};
    }
    forall y | y in s - {x} && y.mask.Net? && up < y.mask.len <= |pre|
      ensures Ann(y.mask.len, y.id) in t
    {
      RemoveAnnMember(anns, a, Ann(y.mask.len, y.id));
      if y.mask == x.mask && y.id == x.id {
        SameMaskSameKey(x, y, pre, w);
      }
    }
  }

  // A change of the items at the end of a path whose masks no node of the path may carry.
  lemma {:induction false} PathNeutral<I>(path: Path<I>, s: set<Item<I>>, s': set<Item<I>>, w: nat, up: int)
    requires PathOk(path, s, w, up)
    requires forall x :: x in s' ==> Fits(path, x.key)
    requires forall x :: (x in s) != (x in s') && x.mask.Net? ==> x.mask.len <= up || x.mask.len > Bit(path, up)
    ensures PathOk(path, s', w, up)
  {
    if path != [] {
      var fr, rest := path[0], path[1..];
      assert Bit(path, up) == Bit(rest, |fr.pre|);
      BitGrows(rest, s, w, |fr.pre|);
      forall x | x in s' ensures Fits(rest, x.key) {
        assert forall i :: 0 <= i < |rest| ==> rest[i] == path[i + 1];
      }
      PathNeutral(rest, s, s', w, |fr.pre|);
      var u, u' := s + SibItems(rest), s' + SibItems(rest);
      AnnsNeutral(fr.anns, up, |fr.pre|, u + Items(fr.sib), u' + Items(fr.sib));
    }
  }

  lemma AnnsNeutral<I>(anns: seq<Ann<I>>, up: int, b: nat, s: set<Item<I>>, s': set<Item<I>>)
    requires AnnsOk(anns, up, b, s)
    requires forall x :: (x in s) != (x in s') && x.mask.Net? ==> x.mask.len <= up || x.mask.len > b
    ensures AnnsOk(anns, up, b, s')
  {
    forall a | a in anns ensures Carries(s', a) {
      var y :| y in s && y.mask == Net(a.len) && y.id == a.id;
      assert y in s';
    }
  }

  lemma {:induction false} BitGrows<I>(path: Path<I>, s: set<Item<I>>, w: nat, up: int)
    requires PathOk(path, s, w, up)
    ensures up <= Bit(path, up)
    ensures path != [] ==> up < Bit(path, up) < w
  {
    if path != [] {
      BitGrows(path[1..], s, w, |path[0].pre|);
      assert Bit(path, up) == Bit(path[1..], |path[0].pre|);
    }
  }

  lemma UnderBoth<I>(fr: Frame<I>, s: set<Item<I>>)
    requires Under(s, fr.pre + [fr.right]) && Under(Items(fr.sib), fr.pre + [!fr.right])
    ensures Under(s + Items(fr.sib), fr.pre)
  {
    forall y | y in s + Items(fr.sib) ensures fr.pre <= y.key {
      assert y in Items(fr.sib) ==> fr.pre + [!fr.right] <= y.key;
      assert y in s ==> fr.pre + [fr.right] <= y.key;
    }
  }

  // What adding x to the inner subtree of a frame does to it: the frame takes the annotation
  // when x's index is in its range and is untouched when it is above it.
  lemma FrameAdd<I>(fr: Frame<I>, u: set<Item<I>>, x: Item<I>, w: nat, up: int)
    requires FrameOk(fr, u, w, up)
    requires AllItemsOk(u + Items(fr.sib) + {x}, w) && fr.pre + [fr.right] <= x.key
    requires forall y :: y in u + Items(fr.sib) ==> !SameRoute(x, y)
    requires x.mask.Net? && up < x.mask.len
    ensures x.mask.len <= |fr.pre| ==>
      FrameOk(fr.(anns := InsertAnn(fr.anns, Ann(x.mask.len, x.id))), u + {x}, w, up)
    ensures x.mask.len > |fr.pre| ==> FrameOk(fr, u + {x}, w, up)
  {
    var v := u + Items(fr.sib);
    assert v + {x} == u + {x} + Items(fr.sib);
    UnderBoth(fr, u + {x});
    if x.mask.len <= |fr.pre| {
      AnnsGrow(fr.anns, up, fr.pre, v, x, w);
    } else {
      AnnsNeutral(fr.anns, up, |fr.pre|, v, v + {x});
    }
  }

  lemma FrameDrop<I>(fr: Frame<I>, u: set<Item<I>>, x: Item<I>, w: nat, up: int)
    requires FrameOk(fr, u, w, up) && x in u && x !in Items(fr.sib)
    requires AllItemsOk(u + Items(fr.sib), w)
    requires x.mask.Net? && up < x.mask.len
    ensures x.mask.len <= |fr.pre| ==>
      FrameOk(fr.(anns := RemoveAnn(fr.anns, Ann(x.mask.len, x.id))), u - {x}, w, up)
    ensures x.mask.len > |fr.pre| ==> FrameOk(fr, u - {x}, w, up)
  {
    var v := u + Items(fr.sib);
    assert v - {x} == u - {x} + Items(fr.sib);
    UnderBoth(fr, u);
    if x.mask.len <= |fr.pre| {
      AnnsShrink(fr.anns, up, fr.pre, v, x, w);
    } else {
      AnnsNeutral(fr.anns, up, |fr.pre|, v, v - {x});
    }
  }

  lemma FitsTail<I>(path: Path<I>, key: Key)
    requires path != []
    ensures Fits(path, key) <==> path[0].pre + [path[0].right] <= key && Fits(path[1..], key)
  {
    assert forall i :: 0 <= i < |path[1..]| ==> path[1..][i] == path[i + 1];
    if Fits(path[1..], key) && path[0].pre + [path[0].right] <= key {
      forall i | 0 <= i < |path| ensures path[i].pre + [path[i].right] <= key {
        if i > 0 { assert path[i] == path[1..][i - 1]; }
      }
    }
  }

  lemma LiftCons<I>(path: Path<I>, x: Item<I>)
    requires path != [] && x.mask.Net?
    ensures x.mask.len <= |path[0].pre| ==>
      var fr, a := path[0], Ann(x.mask.len, x.id);
      && Lift(path, x) == [fr.(anns := InsertAnn(fr.anns, a))] + path[1..]
      && Unlift(path, x) == [fr.(anns := RemoveAnn(fr.anns, a))] + path[1..]
    ensures x.mask.len > |path[0].pre| ==>
      && Lift(path, x) == [path[0]] + Lift(path[1..], x)
      && Unlift(path, x) == [path[0]] + Unlift(path[1..], x)
  {
  }

  lemma {:induction false} PathAdd<I>(path: Path<I>, s: set<Item<I>>, x: Item<I>, w: nat, up: int)
    requires PathOk(path, s, w, up)
    requires AllItemsOk(s + SibItems(path) + {x}, w)
    requires Fits(path, x.key) && forall y :: y in s ==> Fits(path, y.key)
    requires forall y :: y in s + SibItems(path) ==> !SameRoute(x, y)
    requires x.mask.Net? ==> up < x.mask.len
    ensures PathOk(Lift(path, x), s + {x}, w, up)
  {
    hide AnnsOk, TreeOk, Items, Home, Fits, ItemOk, FrameOk;
    var s' := s + {x};
    if path == [] {
    } else if x.mask.Host? {
      PathNeutral(path, s, s', w, up);
    } else {
      var fr, rest := path[0], path[1..];
      forall y | y in s' ensures Fits(rest, y.key) { FitsTail(path, y.key); }
      FitsTail(path, x.key);
      var u := s + SibItems(rest);
      assert u + {x} == s' + SibItems(rest);
      FrameAdd(fr, u, x, w, up);
      LiftCons(path, x);
      if x.mask.len <= |fr.pre| {
        PathNeutral(rest, s, s', w, |fr.pre|);
      } else {
        assert AllItemsOk(s + SibItems(rest) + {x}, w);
        PathAdd(rest, s, x, w, |fr.pre|);
        LiftSib(rest, x);
      }
    }
  }

  lemma {:induction false} SetFrameSib<I>(path: Path<I>, j: nat, anns: seq<Ann<I>>)
    requires j < |path|
    ensures SibItems(path[j := path[j].(anns := anns)]) == SibItems(path)
  {
    var q := path[j := path[j].(anns := anns)];
    if j == 0 {
      assert q[1..] == path[1..];
    } else {
      assert q[1..] == path[1..][j - 1 := path[1..][j - 1].(anns := anns)];
      SetFrameSib(path[1..], j - 1, anns);
    }
  }

  lemma LiftSib<I>(path: Path<I>, x: Item<I>)
    ensures SibItems(Lift(path, x)) == SibItems(path)
    ensures SibItems(Unlift(path, x)) == SibItems(path)
  {
    if x.mask.Net? && Home(path, x.mask.len) < |path| {
      var j, a := Home(path, x.mask.len), Ann(x.mask.len, x.id);
      SetFrameSib(path, j, InsertAnn(path[j].anns, a));
      SetFrameSib(path, j, RemoveAnn(path[j].anns, a));
    }
  }

  lemma {:induction false} PathDrop<I>(path: Path<I>, s: set<Item<I>>, x: Item<I>, w: nat, up: int)
    requires PathOk(path, s, w, up) && x in s && x !in SibItems(path)
    requires AllItemsOk(s + SibItems(path), w)
    requires forall y :: y in s ==> Fits(path, y.key)
    requires x.mask.Net? ==> up < x.mask.len
    ensures PathOk(Unlift(path, x), s - {x}, w, up)
  {
    hide AnnsOk, TreeOk, Items, Home, Fits, ItemOk, FrameOk;
    var s' := s - {x};
    if path == [] {
    } else if x.mask.Host? {
      PathNeutral(path, s, s', w, up);
    } else {
      var fr, rest := path[0], path[1..];
      forall y | y in s ensures Fits(rest, y.key) { FitsTail(path, y.key); }
      var u := s + SibItems(rest);
      assert u - {x} == s' + SibItems(rest);
      FrameDrop(fr, u, x, w, up);
      LiftCons(path, x);
      if x.mask.len <= |fr.pre| {
        PathNeutral(rest, s, s', w, |fr.pre|);
      } else {
        PathDrop(rest, s, x, w, |fr.pre|);
        LiftSib(rest, x);
      }
    }
  }

  // ---- splicing a node in and out -----------------------------------------------------------

  // The annotations of a chain whose index lies above up and at most c, in chain order.
  ghost function Select<I>(chain: seq<Entry<I>>, up: int, c: nat): seq<Ann<I>> {
    if chain == [] then []
    else
      var e, rest := chain[0], Select(chain[1..], up, c);
      if e.mask.Net? && up < e.mask.len <= c then [Ann(e.mask.len, e.id)] + rest else rest
  }

  function MarkTo<I>(chain: seq<Entry<I>>, up: int): (m: seq<Entry<I>>)
    ensures |m| == |chain|
    ensures forall i :: 0 <= i < |m| ==>
      m[i] == chain[i].(lifted := chain[i].mask.Net? && chain[i].mask.len <= up)
  {
    seq(|chain|, i requires 0 <= i < |chain| =>
      chain[i].(lifted := chain[i].mask.Net? && chain[i].mask.len <= up))
  }

  // The first annotation whose index is at most c.
  ghost function SplitAt<I>(anns: seq<Ann<I>>, c: nat): (k: nat)
    ensures k <= |anns|
    ensures forall i :: 0 <= i < k ==> anns[i].len > c
    ensures k < |anns| ==> anns[k].len <= c
  {
    if anns == [] || anns[0].len <= c then 0 else 1 + SplitAt(anns[1..], c)
  }

  // What a subtree hands to a new node that tests bit c above it, and what it keeps.
  ghost function Handed<I>(f: Tree<I>, up: int, c: nat): seq<Ann<I>> {
    match f
    case Leaf(_, chain) => Select(chain, up, c)
    case Node(_, _, anns, _, _) => anns[SplitAt(anns, c)..]
  }

  ghost function Kept<I>(f: Tree<I>, c: nat): Tree<I> {
    match f
    case Leaf(key, chain) => Leaf(key, MarkTo(chain, c))
    case Node(n, pre, anns, l, r) => Node(n, pre, anns[..SplitAt(anns, c)], l, r)
  }

  // A subtree that takes the annotations of a removed parent back.
  ghost function Merged<I>(f: Tree<I>, anns: seq<Ann<I>>, up: int): Tree<I> {
    match f
    case Leaf(key, chain) => Leaf(key, MarkTo(chain, up))
    case Node(n, pre, own, l, r) => Node(n, pre, own + anns, l, r)
  }

  lemma MarkItems<I>(key: Key, chain: seq<Entry<I>>, up: int)
    ensures ChainItems(key, MarkTo(chain, up)) == ChainItems(key, chain)
  {
    var m := MarkTo(chain, up);
    forall x | x in ChainItems(key, chain) ensures x in ChainItems(key, m) {
      var i :| 0 <= i < |chain| && x == Item(key, chain[i].mask, chain[i].root, chain[i].id);
      assert m[i] in m;
    }
    forall x | x in ChainItems(key, m) ensures x in ChainItems(key, chain) {
      var i :| 0 <= i < |m| && x == Item(key, m[i].mask, m[i].root, m[i].id);
      assert chain[i] in chain;
    }
  }

  lemma {:induction false} SelectMember<I>(chain: seq<Entry<I>>, up: int, c: nat, a: Ann<I>)
    ensures a in Select(chain, up, c) <==>
      up < a.len <= c && exists e :: e in chain && e.mask == Net(a.len) && e.id == a.id
  {
    if chain != [] {
      SelectMember(chain[1..], up, c, a);
      assert chain == [chain[0]] + chain[1..];
    }
  }

  lemma {:induction false} SelectSorted<I>(chain: seq<Entry<I>>, up: int, c: nat, w: nat)
    requires ChainSorted(chain, w)
    ensures AnnsSorted(Select(chain, up, c))
  {
    if chain != [] {
      SelectSorted(chain[1..], up, c, w);
      var t := Select(chain[1..], up, c);
      forall k | 0 <= k < |t| ensures Rank(chain[0].mask, w) > t[k].len {
        SelectMember(chain[1..], up, c, t[k]);
        var i :| 0 <= i < |chain[1..]| && chain[1..][i].mask == Net(t[k].len);
        assert chain[1..][i] == chain[i + 1];
      }
    }
  }

  lemma SelectOk<I>(key: Key, chain: seq<Entry<I>>, w: nat, up: int, c: nat)
    requires ChainSorted(chain, w)
    ensures AnnsOk(Select(chain, up, c), up, c, ChainItems(key, chain))
  {
    SelectSorted(chain, up, c, w);
    forall a | a in Select(chain, up, c) ensures up < a.len <= c && Carries(ChainItems(key, chain), a) {
      SelectMember(chain, up, c, a);
      var e :| e in chain && e.mask == Net(a.len) && e.id == a.id;
      assert Item(key, e.mask, e.root, e.id) in ChainItems(key, chain);
    }
    forall x | x in ChainItems(key, chain) && x.mask.Net? && up < x.mask.len <= c
      ensures Ann(x.mask.len, x.id) in Select(chain, up, c)
    {
      SelectMember(chain, up, c, Ann(x.mask.len, x.id));
    }
  }

  lemma TailMember<I>(s: seq<Ann<I>>, a: Ann<I>)
    requires AnnsSorted(s) && s != []
    ensures a in s[1..] <==> a in s && a != s[0]
  {
    assert s == [s[0]] + s[1..];
    if a in s[1..] { HeadIsLongest(s, a); }
  }

  lemma HeadIsMax<I>(s: seq<Ann<I>>, a: Ann<I>)
    requires AnnsSorted(s) && a in s
    ensures a == s[0] || s[0].len > a.len
  {
    var i :| 0 <= i < |s| && s[i] == a;
  }

  // Two strictly sorted lists with the same members are equal, so a node whose only leaf below
  // is a chain carries exactly the selected part of that chain, in the chain's order.
  lemma {:induction false} SortedSame<I>(s: seq<Ann<I>>, t: seq<Ann<I>>)
    requires AnnsSorted(s) && AnnsSorted(t)
    requires forall a :: a in s <==> a in t
    ensures s == t
  {
    assert (s != [] ==> s[0] in t) && (t != [] ==> t[0] in s);
    if s != [] {
      HeadIsMax(s, t[0]);
      HeadIsMax(t, s[0]);
      forall a ensures a in s[1..] <==> a in t[1..] {
        TailMember(s, a);
        TailMember(t, a);
      }
      SortedSame(s[1..], t[1..]);
    }
  }

  lemma AnnsAreSelected<I>(anns: seq<Ann<I>>, key: Key, chain: seq<Entry<I>>, w: nat, up: int, c: nat)
    requires AnnsOk(anns, up, c, ChainItems(key, chain)) && ChainSorted(chain, w)
    ensures anns == Select(chain, up, c)
  {
    SelectSorted(chain, up, c, w);
    forall a ensures a in anns <==> a in Select(chain, up, c) {
      SelectMember(chain, up, c, a);
      if a in anns {
        var x :| x in ChainItems(key, chain) && x.mask == Net(a.len) && x.id == a.id;
      }
      if a in Select(chain, up, c) {
        var e :| e in chain && e.mask == Net(a.len) && e.id == a.id;
        assert Item(key, e.mask, e.root, e.id) in ChainItems(key, chain);
      }
    }
    SortedSame(anns, Select(chain, up, c));
  }

  lemma SplitAnns<I>(anns: seq<Ann<I>>, up: int, c: nat, b: nat, s: set<Item<I>>)
    requires AnnsOk(anns, up, b, s) && up < c < b
    ensures AnnsOk(anns[..SplitAt(anns, c)], c, b, s)
    ensures AnnsOk(anns[SplitAt(anns, c)..], up, c, s)
  {
    var k := SplitAt(anns, c);
    forall a | a in anns[..k] || a in anns[k..]
      ensures a in anns && (if a in anns[..k] then a.len > c else a.len <= c)
    {
      SplitMember(anns, c, a);
    }
    forall x | x in s && x.mask.Net? && up < x.mask.len <= b
      ensures Ann(x.mask.len, x.id) in if x.mask.len > c then anns[..k] else anns[k..]
    {
      SplitMember(anns, c, Ann(x.mask.len, x.id));
    }
  }

  lemma SplitMember<I>(anns: seq<Ann<I>>, c: nat, a: Ann<I>)
    requires AnnsSorted(anns)
    ensures a in anns[..SplitAt(anns, c)] <==> a in anns && a.len > c
    ensures a in anns[SplitAt(anns, c)..] <==> a in anns && a.len <= c
  {
    var k := SplitAt(anns, c);
    if a in anns {
      var i :| 0 <= i < |anns| && anns[i] == a;
      if i < k { assert anns[..k][i] == a; } else { assert anns[k..][i - k] == a; }
    }
  }

  // Splicing a node that tests bit c above the subtree f.
  lemma Split<I>(f: Tree<I>, w: nat, up: int, n: I, pre: Key, right: bool)
    requires TreeOk(f, w, up) && up < |pre| < w
    requires f.Node? ==> |pre| < |f.pre|
    requires Under(Items(f), pre + [!right])
    ensures TreeOk(Kept(f, |pre|), w, |pre|) && Items(Kept(f, |pre|)) == Items(f)
    ensures FrameOk(Frame(n, pre, Handed(f, up, |pre|), right, Kept(f, |pre|)), {}, w, up)
  {
    var c := |pre|;
    match f
    case Leaf(key, chain) =>
      MarkItems(key, chain, c);
      SelectOk(key, chain, w, up, c);
      var m := MarkTo(chain, c);
      assert forall i :: 0 <= i < |m| ==> EntryOk(key, chain[i], up) && EntryOk(key, m[i], c);
      assert {} + Items(f) == Items(f);
    case Node(_, p, anns, l, r) =>
      SplitAnns(anns, up, c, |p|, Items(f));
      assert {} + Items(f) == Items(f);
  }

  // Splicing out a node one of whose subtrees has become empty.
  lemma Merge<I>(fr: Frame<I>, w: nat, up: int)
    requires FrameOk(fr, {}, w, up)
    ensures TreeOk(Merged(fr.sib, fr.anns, up), w, up)
    ensures Items(Merged(fr.sib, fr.anns, up)) == Items(fr.sib)
    ensures fr.sib.Leaf? ==> fr.anns == Select(fr.sib.chain, up, |fr.pre|)
  {
    assert {} + Items(fr.sib) == Items(fr.sib);
    match fr.sib
    case Leaf(key, chain) =>
      MarkItems(key, chain, up);
      AnnsAreSelected(fr.anns, key, chain, w, up, |fr.pre|);
      var m := MarkTo(chain, up);
      assert forall i :: 0 <= i < |m| ==> EntryOk(key, chain[i], |fr.pre|) && EntryOk(key, m[i], up);
    case Node(_, p, own, _, _) =>
      var both := own + fr.anns;
      assert AnnsSorted(both) by {
        forall i, j | 0 <= i < j < |both| ensures both[i].len > both[j].len {
          assert i < |own| ==> own[i] in own;
          assert j >= |own| ==> fr.anns[j - |own|] in fr.anns;
        }
      }
  }

  // ---- chains -------------------------------------------------------------------------------

  lemma PutItems<I>(key: Key, chain: seq<Entry<I>>, i: nat, e: Entry<I>)
    requires i <= |chain|
    ensures ChainItems(key, chain[..i] + [e] + chain[i..])
         == ChainItems(key, chain) + {Item(key, e.mask, e.root, e.id)}
  {
    var c := chain[..i] + [e] + chain[i..];
    forall y ensures y in c <==> y == e || y in chain {
      assert c == chain[..i] + ([e] + chain[i..]);
      assert chain == chain[..i] + chain[i..];
    }
  }

  lemma ChainPut<I>(key: Key, chain: seq<Entry<I>>, i: nat, e: Entry<I>, w: nat, up: int)
    requires LeafOk(key, chain, w, up) && i <= |chain| && EntryOk(key, e, up)
    requires forall j :: 0 <= j < i ==> Rank(chain[j].mask, w) > Rank(e.mask, w)
    requires i < |chain| ==> Rank(chain[i].mask, w) < Rank(e.mask, w)
    ensures LeafOk(key, chain[..i] + [e] + chain[i..], w, up)
  {
    var c := chain[..i] + [e] + chain[i..];
    assert forall k :: 0 <= k < |c| ==>
      c[k] == if k < i then chain[k] else if k == i then e else chain[k - 1];
  }

  // c is the chain without its entry i.
  ghost predicate IsCut<I>(c: seq<Entry<I>>, chain: seq<Entry<I>>, i: nat) {
    |c| + 1 == |chain| && forall k :: 0 <= k < |c| ==> c[k] == chain[if k < i then k else k + 1]
  }

  lemma ChainCut<I>(key: Key, chain: seq<Entry<I>>, i: nat, w: nat, up: int)
    requires LeafOk(key, chain, w, up) && i < |chain|
    ensures |chain| > 1 ==> LeafOk(key, chain[..i] + chain[i + 1..], w, up)
    ensures ChainItems(key, chain[..i] + chain[i + 1..])
         == ChainItems(key, chain) - {Item(key, chain[i].mask, chain[i].root, chain[i].id)}
  {
    var c := chain[..i] + chain[i + 1..];
    assert IsCut(c, chain, i);
    forall k | 0 <= k < |c| ensures EntryOk(key, c[k], up) {}
    CutItems(key, chain, c, i, w);
  }

  lemma CutItems<I>(key: Key, chain: seq<Entry<I>>, c: seq<Entry<I>>, i: nat, w: nat)
    requires ChainSorted(chain, w) && i < |chain| && IsCut(c, chain, i)
    ensures ChainItems(key, c) == ChainItems(key, chain) - {Item(key, chain[i].mask, chain[i].root, chain[i].id)}
  {
    forall x | x in ChainItems(key, chain) && x != Item(key, chain[i].mask, chain[i].root, chain[i].id)
      ensures x in ChainItems(key, c)
    {
      var e :| e in chain && x == Item(key, e.mask, e.root, e.id);
      var k :| 0 <= k < |chain| && chain[k] == e;
      assert k != i;
      if k < i { assert c[k] == e; } else { assert c[k - 1] == e; }
    }
    forall x | x in ChainItems(key, c)
      ensures x in ChainItems(key, chain) && x != Item(key, chain[i].mask, chain[i].root, chain[i].id)
    {
      var e :| e in c && x == Item(key, e.mask, e.root, e.id);
      var k :| 0 <= k < |c| && c[k] == e;
      var j := if k < i then k else k + 1;
      assert e == chain[j] && Rank(chain[j].mask, w) != Rank(chain[i].mask, w);
    }
  }

  // ---- longest match ------------------------------------------------------------------------

  // The plain meaning of a route: its key agrees with v under its mask.  Root leaves are none.
  ghost predicate Matches<I>(x: Item<I>, v: Key) {
    && !x.root && |x.key| == |v|
    && match x.mask
       case Host => x.key == v
       case Net(len) => len <= |v| && x.key[..len] == v[..len]
  }

  ghost predicate Best<I>(s: set<Item<I>>, x: Item<I>, v: Key) {
    x in s && Matches(x, v) && forall y :: y in s && Matches(y, v) ==> Rank(y.mask, |v|) <= Rank(x.mask, |v|)
  }

  // v turns at every node of the path the way the path does.
  ghost predicate Follows<I>(path: Path<I>, v: Key) {
    forall i :: 0 <= i < |path| ==> |path[i].pre| < |v| && path[i].right == v[|path[i].pre|]
  }

  // d is the first bit at which v and key differ, or their length.
  ghost predicate FirstDiff(v: Key, key: Key, d: nat) {
    |v| == |key| && d <= |v| && v[..d] == key[..d] && (d < |v| ==> v[d] != key[d])
  }

  function UpBit<I>(path: Path<I>, i: nat, up: int): int
    requires i <= |path|
  {
    if i == 0 then up else |path[i - 1].pre|
  }

  lemma {:induction false} FrameAt<I>(path: Path<I>, s: set<Item<I>>, w: nat, up: int, i: nat)
    requires PathOk(path, s, w, up) && i < |path|
    ensures FrameOk(path[i], s + SibItems(path[i + 1..]), w, UpBit(path, i, up))
  {
    if i > 0 {
      FrameAt(path[1..], s, w, |path[0].pre|, i - 1);
      assert path[1..][i..] == path[i + 1..];
      assert UpBit(path[1..], i - 1, |path[0].pre|) == UpBit(path, i, up);
    }
  }

  lemma {:induction false} BitsIncrease<I>(path: Path<I>, s: set<Item<I>>, w: nat, up: int, i: nat, j: nat)
    requires PathOk(path, s, w, up) && i < j < |path|
    ensures up < |path[i].pre| < |path[j].pre|
    decreases j
  {
    hide TreeOk, AnnsOk, Under;
    FrameAt(path, s, w, up, j);
    if i < j - 1 {
      BitsIncrease(path, s, w, up, i, j - 1);
    } else {
      FrameAt(path, s, w, up, i);
      if i > 0 { BitsIncrease(path, s, w, up, 0, i); }
      FrameAt(path, s, w, up, 0);
    }
  }

  lemma PathFits<I>(path: Path<I>, s: set<Item<I>>, w: nat, up: int, x: Item<I>)
    requires PathOk(path, s, w, up) && x in s
    ensures Fits(path, x.key)
  {
    forall i | 0 <= i < |path| ensures path[i].pre + [path[i].right] <= x.key {
      FrameAt(path, s, w, up, i);
    }
  }

  lemma {:induction false} SibAt<I>(path: Path<I>, x: Item<I>) returns (i: nat)
    requires x in SibItems(path)
    ensures i < |path| && x in Items(path[i].sib)
  {
    if x in Items(path[0].sib) {
      i := 0;
    } else {
      i := SibAt(path[1..], x);
      i := i + 1;
    }
  }

  lemma {:induction false} SibsBelow<I>(path: Path<I>, i: nat, j: nat)
    requires i <= j < |path|
    ensures Items(path[j].sib) <= SibItems(path[i..])
    ensures SibItems(path[i..]) <= SibItems(path)
    decreases j
  {
    if i > 0 {
      assert path[1..][i - 1..] == path[i..];
      SibsBelow(path[1..], i - 1, j - 1);
      assert path[1..][j - 1] == path[j];
    } else {
      assert path[0..] == path;
      if j > 0 {
        SibsBelow(path[1..], 0, j - 1);
        assert path[1..][0..] == path[1..];
        assert path[1..][j - 1] == path[j];
      }
    }
  }

  lemma PrefixSlice(pre: Key, x: Key, y: Key, n: nat)
    requires pre <= x && pre <= y && n <= |pre|
    ensures x[..n] == y[..n]
  {
    assert x[..n] == pre[..n] && y[..n] == pre[..n];
  }

  lemma SameAt(x: Key, y: Key, n: nat, c: nat)
    requires n <= |x| && n <= |y| && x[..n] == y[..n]
    ensures c < n ==> x[c] == y[c]
  {
    if c < n { assert x[..n][c] == y[..n][c]; }
  }

  // The setting of a lookup: v has been followed to a leaf with the given key and chain.
  ghost predicate AtLeaf<I>(path: Path<I>, key: Key, chain: seq<Entry<I>>, v: Key, w: nat) {
    && |v| == w
    && PathOk(path, ChainItems(key, chain), w, -1)
    && LeafOk(key, chain, w, Bit(path, -1))
    && Follows(path, v)
    && AllItemsOk(ChainItems(key, chain) + SibItems(path), w)
  }

  // A route of another key that matches v left v's path to the left at a bit c beyond its mask.
  lemma Elsewhere<I>(path: Path<I>, key: Key, chain: seq<Entry<I>>, v: Key, w: nat, x: Item<I>) returns (i: nat)
    requires AtLeaf(path, key, chain, v, w)
    requires x in SibItems(path) && Matches(x, v)
    ensures i < |path| && x in Items(path[i].sib)
    ensures x.mask.Net? && x.mask.len <= |path[i].pre| < w
    ensures v[|path[i].pre|] && key[|path[i].pre|] && key[..x.mask.len] == v[..x.mask.len]
  {
    i := SibAt(path, x);
    var s := ChainItems(key, chain);
    FrameAt(path, s, w, -1, i);
    var fr, c := path[i], |path[i].pre|;
    assert Item(key, chain[0].mask, chain[0].root, chain[0].id) in s by { assert chain[0] in chain; }
    assert fr.pre + [!fr.right] <= x.key;
    assert x.key[c] == !fr.right;
    assert fr.pre + [fr.right] <= key;
    assert key[c] == fr.right;
    if x.mask.Net? { SameAt(x.key, v, x.mask.len, c); }
    var n := x.mask.len;
    assert ItemOk(x, w);
    PrefixSlice(fr.pre, key, x.key, n);
  }

  // Every entry of the leaf is more specific than any route of another key that matches v, so
  // the first entry of the chain that matches is the best match.
  lemma ChainIsBest<I>(path: Path<I>, key: Key, chain: seq<Entry<I>>, v: Key, w: nat, i: nat)
    requires AtLeaf(path, key, chain, v, w) && i < |chain|
    requires Matches(Item(key, chain[i].mask, chain[i].root, chain[i].id), v)
    requires forall k :: 0 <= k < i ==> !Matches(Item(key, chain[k].mask, chain[k].root, chain[k].id), v)
    ensures Best(ChainItems(key, chain) + SibItems(path), Item(key, chain[i].mask, chain[i].root, chain[i].id), v)
  {
    var s := ChainItems(key, chain);
    assert chain[i] in chain;
    forall y | y in s + SibItems(path) && Matches(y, v)
      ensures Rank(y.mask, w) <= Rank(chain[i].mask, w)
    {
      if y in s {
        var k :| 0 <= k < |chain| && y == Item(key, chain[k].mask, chain[k].root, chain[k].id);
      } else {
        var j := Elsewhere(path, key, chain, v, w, y);
        assert EntryOk(key, chain[i], Bit(path, -1));
      }
    }
  }

  // An annotation met on the way up applies to v exactly when its index is at most the first
  // differing bit.
  lemma AnnMatches<I>(path: Path<I>, key: Key, chain: seq<Entry<I>>, v: Key, w: nat, d: nat, j: nat, a: Ann<I>)
    returns (x: Item<I>)
    requires AtLeaf(path, key, chain, v, w) && FirstDiff(v, key, d)
    requires j < |path| && a in path[j].anns && a.len <= d
    ensures x in ChainItems(key, chain) + SibItems(path)
    ensures x.mask == Net(a.len) && x.id == a.id && Matches(x, v)
  {
    var s := ChainItems(key, chain);
    FrameAt(path, s, w, -1, j);
    var fr := path[j];
    var inner := s + SibItems(path[j + 1..]);
    x :| x in inner + Items(fr.sib) && x.mask == Net(a.len) && x.id == a.id;
    assert x in s + SibItems(path) by {
      SibsBelow(path, j, j);
      if j + 1 < |path| { SibsBelow(path, j + 1, j + 1); }
    }
    assert fr.pre <= key && fr.pre <= x.key by {
      UnderBoth(fr, inner);
      assert Item(key, chain[0].mask, chain[0].root, chain[0].id) in s by { assert chain[0] in chain; }
      assert fr.pre + [fr.right] <= key;
    }
    assert ItemOk(x, w);
    PrefixSlice(fr.pre, x.key, key, a.len);
    assert key[..a.len] == v[..a.len] by {
      assert v[..d] <= key && v[..d] <= v;
      PrefixSlice(v[..d], key, v, a.len);
    }
  }

  // A route of another key that matches v is met on the way up.
  lemma Met<I>(path: Path<I>, key: Key, chain: seq<Entry<I>>, v: Key, w: nat, d: nat, x: Item<I>)
    returns (j: nat)
    requires AtLeaf(path, key, chain, v, w) && FirstDiff(v, key, d)
    requires x in SibItems(path) && Matches(x, v)
    ensures x.mask.Net? && x.mask.len <= d
    ensures j < |path| && Ann(x.mask.len, x.id) in path[j].anns
    ensures UpBit(path, j, -1) < x.mask.len <= |path[j].pre|
  {
    var i := Elsewhere(path, key, chain, v, w, x);
    var n := x.mask.len;
    SameAt(key, v, n, d);
    j := i;
    while j > 0 && n <= |path[j - 1].pre|
      invariant j <= i && n <= |path[j].pre|
    {
      j := j - 1;
    }
    var s := ChainItems(key, chain);
    FrameAt(path, s, w, -1, j);
    SibsBelow(path, j, i);
    if j < i {
      SibsBelow(path, j + 1, i);
    }
    assert x in s + SibItems(path[j + 1..]) + Items(path[j].sib);
  }

  // No entry of the chain applies to v.
  ghost predicate ChainMisses<I>(key: Key, chain: seq<Entry<I>>, v: Key) {
    forall i :: 0 <= i < |chain| ==> !Matches(Item(key, chain[i].mask, chain[i].root, chain[i].id), v)
  }

  ghost predicate AnnsMiss<I>(anns: seq<Ann<I>>, d: nat) {
    forall i :: 0 <= i < |anns| ==> anns[i].len > d
  }

  // Annotation k of node j is the first to cover v on the way up; j is 0 and k the length of
  // its list when there is none.
  ghost predicate FirstCover<I>(path: Path<I>, d: nat, j: nat, k: nat) {
    && j < |path| && k <= |path[j].anns|
    && (forall i :: j < i < |path| ==> AnnsMiss(path[i].anns, d))
    && AnnsMiss(path[j].anns[..k], d)
    && (if k < |path[j].anns| then path[j].anns[k].len <= d else j == 0)
  }

  // The first applicable annotation of the lowest node that has one is the best match.
  lemma LiftedIsBest<I>(path: Path<I>, key: Key, chain: seq<Entry<I>>, v: Key, w: nat, d: nat, j: nat, k: nat)
    returns (x: Item<I>)
    requires AtLeaf(path, key, chain, v, w) && FirstDiff(v, key, d) && ChainMisses(key, chain, v)
    requires FirstCover(path, d, j, k) && k < |path[j].anns|
    ensures x.id == path[j].anns[k].id && x.mask == Net(path[j].anns[k].len)
    ensures Best(ChainItems(key, chain) + SibItems(path), x, v)
  {
    var s := ChainItems(key, chain);
    var a := path[j].anns[k];
    x := AnnMatches(path, key, chain, v, w, d, j, a);
    FrameAt(path, s, w, -1, j);
    forall y | y in s + SibItems(path) && Matches(y, v) ensures Rank(y.mask, w) <= a.len {
      assert y !in s;
      var _ := LiftedBeats(path, key, chain, v, w, d, j, k, y);
    }
  }

  lemma LiftedBeats<I>(path: Path<I>, key: Key, chain: seq<Entry<I>>, v: Key, w: nat, d: nat, j: nat, k: nat,
                       y: Item<I>)
    returns (i: nat)
    requires AtLeaf(path, key, chain, v, w) && FirstDiff(v, key, d)
    requires FirstCover(path, d, j, k) && k < |path[j].anns|
    requires y in SibItems(path) && Matches(y, v)
    ensures y.mask.Net? && y.mask.len <= path[j].anns[k].len
  {
    hide TreeOk, Follows, AllItemsOk, LeafOk, Carries, PathOk, Under, Matches;
    i := Met(path, key, chain, v, w, d, y);
    var b := Ann(y.mask.len, y.id);
    assert i <= j by {
      if i > j { Missed(path[i].anns, d, b); }
    }
    FrameAt(path, ChainItems(key, chain), w, -1, j);
    if i == j {
      NoneLonger(path[j].anns, d, k, b);
    } else {
      if i < j - 1 { BitsIncrease(path, ChainItems(key, chain), w, -1, i, j - 1); }
      assert path[j].anns[k] in path[j].anns;
    }
  }

  lemma Missed<I>(anns: seq<Ann<I>>, d: nat, a: Ann<I>)
    requires AnnsMiss(anns, d) && a in anns
    ensures a.len > d
  {
  }

  lemma NoneLonger<I>(anns: seq<Ann<I>>, d: nat, k: nat, a: Ann<I>)
    requires AnnsSorted(anns) && k < |anns| && AnnsMiss(anns[..k], d) && a in anns && a.len <= d
    ensures a.len <= anns[k].len
  {
    forall i | 0 <= i < k ensures anns[i].len > d {
      assert anns[..k][i] == anns[i];
    }
  }

  lemma NothingMatches<I>(path: Path<I>, key: Key, chain: seq<Entry<I>>, v: Key, w: nat, d: nat)
    requires AtLeaf(path, key, chain, v, w) && FirstDiff(v, key, d) && ChainMisses(key, chain, v)
    requires path != [] && FirstCover(path, d, 0, |path[0].anns|)
    ensures forall y :: y in ChainItems(key, chain) + SibItems(path) ==> !Matches(y, v)
  {
    assert path[0].anns[..|path[0].anns|] == path[0].anns;
    forall i, a | 0 <= i < |path| && a in path[i].anns ensures a.len > d {
      Missed(path[i].anns, d, a);
    }
    forall y | y in ChainItems(key, chain) + SibItems(path) ensures !Matches(y, v) {
      if y !in ChainItems(key, chain) && Matches(y, v) {
        var i := Met(path, key, chain, v, w, d, y);
        assert false;
      }
    }
  }
}
