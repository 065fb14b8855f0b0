// The leaves of the tree from left to right, and the order of their keys.

module RadixOrders {
  import opened RadixTree

  ghost predicate LessAt(a: Key, b: Key, d: nat)
    requires d < |a| && d < |b|
  {
    a[..d] == b[..d] && !a[d] && b[d]
  }

  // Keys of one length as numbers, the first bit the highest.
  ghost predicate KeyLess(a: Key, b: Key) {
    |a| == |b| && exists d :: 0 <= d < |a| && LessAt(a, b, d)
  }

  lemma LessTrans(a: Key, b: Key, c: Key)
    requires KeyLess(a, b) && KeyLess(b, c)
    ensures KeyLess(a, c)
  {
    var i :| 0 <= i < |a| && LessAt(a, b, i);
    var j :| 0 <= j < |b| && LessAt(b, c, j);
    var d := if i < j then i else j;
    assert a[..d] == a[..i][..d] == b[..d] == b[..j][..d] == c[..d];
    if i < j { SameAt(b, c, j, i); }
    if j < i { SameAt(a, b, i, j); }
    assert LessAt(a, c, d);
  }

  lemma NotLessSelf(a: Key)
    ensures !KeyLess(a, a)
  {
  }

  lemma LessByPrefix(pre: Key, a: Key, b: Key)
    requires pre + [false] <= a && pre + [true] <= b && |a| == |b|
    ensures KeyLess(a, b)
  {
    var d := |pre|;
    assert a[..d] == (pre + [false])[..d] == pre == (pre + [true])[..d] == b[..d];
    assert a[d] == (pre + [false])[d] && b[d] == (pre + [true])[d];
    assert LessAt(a, b, d);
  }

  ghost function Leaves<I>(t: Tree<I>): (ls: seq<Tree<I>>)
    ensures ls != [] && forall i :: 0 <= i < |ls| ==> ls[i].Leaf?
  {
    match t
    case Leaf(_, _) => [t]
    case Node(_, _, _, l, r) => Leaves(l) + Leaves(r)
  }

  // The leaves on either side of the path.
  ghost function Before<I>(path: Path<I>): seq<Tree<I>> {
    if path == [] then [] else (if path[0].right then Leaves(path[0].sib) else []) + Before(path[1..])
  }

  ghost function After<I>(path: Path<I>): seq<Tree<I>> {
    if path == [] then [] else After(path[1..]) + (if path[0].right then [] else Leaves(path[0].sib))
  }

  lemma {:induction false} LeavesPlug<I>(path: Path<I>, f: Tree<I>)
    ensures Leaves(Plug(path, f)) == Before(path) + Leaves(f) + After(path)
  {
    if path != [] { LeavesPlug(path[1..], f); }
  }

  lemma {:induction false} SidesSnoc<I>(path: Path<I>, fr: Frame<I>)
    ensures Before(path + [fr]) == Before(path) + (if fr.right then Leaves(fr.sib) else [])
    ensures After(path + [fr]) == (if fr.right then [] else Leaves(fr.sib)) + After(path)
  {
    hide Leaves;
    if path == [] {
      assert [fr][1..] == [];
    } else {
      assert (path + [fr])[1..] == path[1..] + [fr];
      SidesSnoc(path[1..], fr);
    }
  }

  ghost predicate Has<I>(ls: seq<Tree<I>>, x: Item<I>) { exists i :: 0 <= i < |ls| && x in Items(ls[i]) }

  lemma {:induction false} LeavesItems<I>(t: Tree<I>, x: Item<I>)
    ensures x in Items(t) <==> Has(Leaves(t), x)
  {
    if t.Node? {
      LeavesItems(t.l, x);
      LeavesItems(t.r, x);
      HasJoin(Leaves(t.l), Leaves(t.r), x);
    } else {
      assert Leaves(t)[0] == t;
    }
  }

  lemma HasJoin<I>(a: seq<Tree<I>>, b: seq<Tree<I>>, x: Item<I>)
    ensures Has(a + b, x) <==> Has(a, x) || Has(b, x)
  {
    if Has(a, x) {
      var i :| 0 <= i < |a| && x in Items(a[i]);
      assert (a + b)[i] == a[i];
    }
    if Has(b, x) {
      var i :| 0 <= i < |b| && x in Items(b[i]);
      assert (a + b)[|a| + i] == b[i];
    }
  }

  ghost predicate Ascending<I>(ls: seq<Tree<I>>) {
    forall i, j :: 0 <= i < j < |ls| && ls[i].Leaf? && ls[j].Leaf? ==> KeyLess(ls[i].key, ls[j].key)
  }

  // The key of every leaf belongs to an item.
  lemma {:induction false} LeafItem<I>(t: Tree<I>, w: nat, up: int, i: nat) returns (x: Item<I>)
    requires TreeOk(t, w, up) && i < |Leaves(t)|
    ensures x in Items(Leaves(t)[i]) && x in Items(t) && x.key == Leaves(t)[i].key && |x.key| == w
    decreases t
  {
    match t
    case Leaf(key, chain) =>
      x := Item(key, chain[0].mask, chain[0].root, chain[0].id);
      assert chain[0] in chain;
    case Node(_, pre, _, l, r) =>
      if i < |Leaves(l)| {
        x := LeafItem(l, w, |pre|, i);
      } else {
        x := LeafItem(r, w, |pre|, i - |Leaves(l)|);
      }
  }

  // From left to right the keys go up.
  lemma {:induction false} LeavesAscend<I>(t: Tree<I>, w: nat, up: int)
    requires TreeOk(t, w, up)
    ensures Ascending(Leaves(t))
  {
    if t.Node? {
      var l, r, b := Leaves(t.l), Leaves(t.r), |t.pre|;
      LeavesAscend(t.l, w, b);
      LeavesAscend(t.r, w, b);
      forall i, j | 0 <= i < |l| && 0 <= j < |r| ensures KeyLess(l[i].key, r[j].key) {
        var x := LeafItem(t.l, w, b, i);
        var y := LeafItem(t.r, w, b, j);
        LessByPrefix(t.pre, x.key, y.key);
      }
      JoinAscending(l, r);
    }
  }

  lemma JoinAscending<I>(a: seq<Tree<I>>, b: seq<Tree<I>>)
    requires Ascending(a) && Ascending(b)
    requires forall i :: 0 <= i < |a| ==> a[i].Leaf?
    requires forall i :: 0 <= i < |b| ==> b[i].Leaf?
    requires forall i, j :: 0 <= i < |a| && 0 <= j < |b| ==> KeyLess(a[i].key, b[j].key)
    ensures Ascending(a + b)
  {
    var c := a + b;
    forall i, j | 0 <= i < j < |c| ensures KeyLess(c[i].key, c[j].key) {
      if j < |a| {
        assert c[i] == a[i] && c[j] == a[j];
      } else if i < |a| {
        assert c[i] == a[i] && c[j] == b[j - |a|];
      } else {
        assert c[i] == b[i - |a|] && c[j] == b[j - |a|];
      }
    }
  }

  // The leaf an item is in, and how its key compares with that of leaf k.
  lemma Placed<I>(t: Tree<I>, w: nat, k: nat, x: Item<I>) returns (i: nat)
    requires TreeOk(t, w, -1) && k < |Leaves(t)| && x in Items(t)
    ensures i < |Leaves(t)| && x in Items(Leaves(t)[i]) && x.key == Leaves(t)[i].key
    ensures KeyLess(x.key, Leaves(t)[k].key) <==> i < k
    ensures KeyLess(Leaves(t)[k].key, x.key) <==> k < i
    ensures x.key == Leaves(t)[k].key <==> i == k
  {
    hide TreeOk, KeyLess, Items, Leaves;
    LeavesItems(t, x);
    LeavesAscend(t, w, -1);
    var ls := Leaves(t);
    i :| 0 <= i < |ls| && x in Items(ls[i]);
    KeyOfLeaf(ls[i], x);
    Exclusive(x.key, ls[k].key);
    Exclusive(ls[k].key, x.key);
    NotLessSelf(x.key);
  }

  lemma KeyOfLeaf<I>(leaf: Tree<I>, x: Item<I>)
    requires leaf.Leaf? && x in Items(leaf)
    ensures x.key == leaf.key
  {
  }

  lemma Exclusive(a: Key, b: Key)
    ensures KeyLess(a, b) ==> a != b && !KeyLess(b, a)
  {
    NotLessSelf(a);
    if KeyLess(a, b) && KeyLess(b, a) { LessTrans(a, b, a); }
  }
}
