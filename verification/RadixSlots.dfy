// The pairing of leaves and internal nodes: each route brings a leaf and an internal node in one
// allocation, the tree needs one internal node for each key, and rn_delete may free a pair only
// when neither of the two is in use.

module RadixSlots {
  import opened RadixTree
  import opened RadixNodes

  type RItem = Item<RadixNode>

  function Zeros(w: nat): Key { seq(w, _ => false) }

  function Ones(w: nat): Key { seq(w, _ => true) }

  predicate RootKey(k: Key) { k == Zeros(|k|) || k == Ones(|k|) }

  // x's pair lends the tree its internal node.
  ghost predicate Lends(x: RItem, ns: set<RadixNode>, top: RadixNode) {
    x.id.twin != null && x.id.twin in ns && x.id.twin != top
  }

  // No two entries share a slot.
  ghost predicate PairsOk(s: set<RItem>, top: RadixNode) {
    && (forall x, y :: x in s && y in s && x != y ==> Apart(x, y))
    && (forall x :: x in s ==> Proper(x, top))
  }

  ghost predicate Apart(x: RItem, y: RItem) {
    x.id != y.id && x.id.twin != y.id && y.id.twin != x.id && (x.id.twin != null ==> x.id.twin != y.id.twin)
  }

  ghost predicate Proper(x: RItem, top: RadixNode) {
    x.id.twin != x.id && (!x.root ==> x.id.twin != null && x.id.twin != top)
  }

  ghost predicate Owned(s: set<RItem>, n: RadixNode) {
    exists x :: x in s && x.id.twin == n
  }

  ghost predicate HasLender(s: set<RItem>, ns: set<RadixNode>, top: RadixNode, key: Key) {
    exists y :: y in s && y.key == key && Lends(y, ns, top)
  }

  // s are the entries of the tree and ns its internal nodes.  Every internal node but the top
  // one belongs to some pair; each key but the two root keys has exactly one entry that lends.
  ghost predicate SlotsOk(s: set<RItem>, ns: set<RadixNode>, top: RadixNode) {
    && PairsOk(s, top)
    && (forall n :: n in ns && n != top ==> Owned(s, n))
    && (forall x, y :: x in s && y in s && x != y && x.key == y.key ==> !(Lends(x, ns, top) && Lends(y, ns, top)))
    && (forall x :: x in s && !RootKey(x.key) ==> HasLender(s, ns, top, x.key))
    && (forall x :: x in s && RootKey(x.key) ==> !Lends(x, ns, top))
  }

  // The flag RNF_ACTIVE on the second of each pair says whether it is in use.
  ghost predicate FlagsOk(s: set<RItem>, ns: set<RadixNode>, repr: set<RadixNode>)
    reads repr
  {
    forall x :: x in s && x.id.twin != null ==> x.id.twin in repr && (x.id.twin.active <==> x.id.twin in ns)
  }

  lemma PairsGrow(s: set<RItem>, top: RadixNode, x: RItem, repr: set<RadixNode>)
    requires PairsOk(s, top) && top in repr
    requires forall y :: y in s ==> y.id in repr && (y.id.twin != null ==> y.id.twin in repr)
    requires x.id !in repr && x.id.twin != null && x.id.twin !in repr && x.id.twin != x.id
    ensures PairsOk(s + {x}, top)
  {
    forall y | y in s ensures Apart(x, y) && Apart(y, x) {}
  }

  lemma OwnedMono(s: set<RItem>, s': set<RItem>, n: RadixNode, x: RItem)
    requires Owned(s, n) && s - {x} <= s' && (x.id.twin == n ==> x in s')
    ensures Owned(s', n)
  {
    var y :| y in s && y.id.twin == n;
    assert y in s';
  }

  lemma LenderMono(s: set<RItem>, s': set<RItem>, ns: set<RadixNode>, ns': set<RadixNode>, top: RadixNode, key: Key)
    requires HasLender(s, ns, top, key)
    requires forall y :: y in s && y.key == key && Lends(y, ns, top) ==> y in s' && Lends(y, ns', top)
    ensures HasLender(s', ns', top, key)
  {
    var y :| y in s && y.key == key && Lends(y, ns, top);
    assert y in s' && Lends(y, ns', top);
  }

  lemma SlotsNewKey(s: set<RItem>, ns: set<RadixNode>, top: RadixNode, x: RItem, repr: set<RadixNode>)
    requires SlotsOk(s, ns, top) && ns <= repr && top in repr
    requires forall y :: y in s ==> y.id in repr && (y.id.twin != null ==> y.id.twin in repr) && y.key != x.key
    requires x.id !in repr && x.id.twin != null && x.id.twin !in repr && x.id.twin != x.id && !RootKey(x.key)
    ensures SlotsOk(s + {x}, ns + {x.id.twin}, top)
  {
    var s', ns' := s + {x}, ns + {x.id.twin as RadixNode};
    PairsGrow(s, top, x, repr);
    assert x in s' && Lends(x, ns', top);
    forall y | y in s ensures Lends(y, ns', top) <==> Lends(y, ns, top) {}
    forall y | y in s' && !RootKey(y.key) ensures HasLender(s', ns', top, y.key) {
      if y != x { LenderMono(s, s', ns, ns', top, y.key); }
    }
    forall n | n in ns' && n != top ensures Owned(s', n) {
      if n in ns { OwnedMono(s, s', n, x); }
    }
  }

  lemma SlotsNewMask(s: set<RItem>, ns: set<RadixNode>, top: RadixNode, x: RItem, w: RItem, repr: set<RadixNode>)
    requires SlotsOk(s, ns, top) && ns <= repr && top in repr
    requires forall y :: y in s ==> y.id in repr && (y.id.twin != null ==> y.id.twin in repr)
    requires x.id !in repr && x.id.twin != null && x.id.twin !in repr && x.id.twin != x.id
    requires w in s && w.key == x.key
    ensures SlotsOk(s + {x}, ns, top)
  {
    var s' := s + {x};
    PairsGrow(s, top, x, repr);
    assert !Lends(x, ns, top);
    forall y | y in s' && !RootKey(y.key) ensures HasLender(s', ns, top, y.key) {
      assert y == x ==> HasLender(s, ns, top, w.key);
      LenderMono(s, s', ns, ns, top, y.key);
    }
    forall n | n in ns && n != top ensures Owned(s', n) {
      OwnedMono(s, s', n, x);
    }
  }

  // An entry goes that does not lend its internal node; others of its key stay.
  lemma SlotsKeep(s: set<RItem>, ns: set<RadixNode>, top: RadixNode, x: RItem)
    requires SlotsOk(s, ns, top) && x in s && !Lends(x, ns, top) && !x.root
    ensures SlotsOk(s - {x}, ns, top)
  {
    var s' := s - {x};
    forall y | y in s' && !RootKey(y.key) ensures HasLender(s', ns, top, y.key) {
      LenderMono(s, s', ns, ns, top, y.key);
    }
    forall n | n in ns && n != top ensures Owned(s', n) {
      OwnedMono(s, s', n, x);
    }
  }

  // An entry x goes that lends its internal node; another entry y of the key lends its own instead.
  lemma SlotsMove(s: set<RItem>, ns: set<RadixNode>, top: RadixNode, x: RItem, y: RItem)
    requires SlotsOk(s, ns, top) && x in s && y in s && x != y && x.key == y.key && Lends(x, ns, top) && !y.root
    ensures y.id.twin != null && y.id.twin !in ns && y.id.twin != top
    ensures SlotsOk(s - {x}, ns - {x.id.twin} + {y.id.twin}, top)
  {
    assert Proper(y, top) && !Lends(y, ns, top);
    var s', ns' := s - {x}, ns - {x.id.twin as RadixNode} + {y.id.twin as RadixNode};
    MoveLends(s, ns, ns', top, x, y);
    forall z | z in s' && !RootKey(z.key) ensures HasLender(s', ns', top, z.key) {
      if z.key == x.key { assert y in s'; } else { LenderMono(s, s', ns, ns', top, z.key); }
    }
    forall n | n in ns' && n != top ensures Owned(s', n) {
      if n == y.id.twin { assert y in s'; } else { OwnedMono(s, s', n, x); }
    }
  }

  lemma MoveLends(s: set<RItem>, ns: set<RadixNode>, ns': set<RadixNode>, top: RadixNode, x: RItem, y: RItem)
    requires SlotsOk(s, ns, top) && x in s && y in s && x != y && x.key == y.key && Lends(x, ns, top) && !y.root
    requires y.id.twin != null && ns' == ns - {x.id.twin} + {y.id.twin}
    ensures forall z :: z in s - {x} ==> (Lends(z, ns', top) <==> z == y || (z.key != x.key && Lends(z, ns, top)))
  {
    assert Proper(y, top);
    forall z | z in s - {x} ensures Lends(z, ns', top) <==> z == y || (z.key != x.key && Lends(z, ns, top)) {
      MoveOne(ns, ns', top, x, y, z);
      if z != y { assert Apart(z, y); }
      assert Apart(z, x);
    }
  }

  lemma MoveOne(ns: set<RadixNode>, ns': set<RadixNode>, top: RadixNode, x: RItem, y: RItem, z: RItem)
    requires x.id.twin != null && y.id.twin != null && y.id.twin != top && ns' == ns - {x.id.twin} + {y.id.twin}
    ensures z == y ==> Lends(z, ns', top)
    ensures z != y && Apart(z, y) && Apart(z, x) ==> (Lends(z, ns', top) <==> Lends(z, ns, top))
  {
  }

  // The last entry of a key goes, and its internal node with it.
  lemma SlotsLast(s: set<RItem>, ns: set<RadixNode>, top: RadixNode, x: RItem)
    requires SlotsOk(s, ns, top) && x in s && forall y :: y in s && y != x ==> y.key != x.key
    requires !RootKey(x.key)
    ensures Lends(x, ns, top)
    ensures SlotsOk(s - {x}, ns - {x.id.twin}, top)
  {
    assert HasLender(s, ns, top, x.key);
    var s', ns' := s - {x}, ns - {x.id.twin as RadixNode};
    forall z | z in s' ensures Lends(z, ns', top) <==> Lends(z, ns, top) { assert Apart(z, x); }
    forall z | z in s' && !RootKey(z.key) ensures HasLender(s', ns', top, z.key) {
      LenderMono(s, s', ns, ns', top, z.key);
    }
    forall n | n in ns' && n != top ensures Owned(s', n) {
      OwnedMono(s, s', n, x);
    }
  }

  // The internal nodes that stand by unused beside an entry of the tree.
  ghost function Idle(s: set<RItem>, ns: set<RadixNode>): set<RadixNode> {
    set x | x in s && x.id.twin != null && x.id.twin !in ns :: x.id.twin
  }

  ghost predicate Unused(ns: set<RadixNode>)
    reads ns
  {
    forall n :: n in ns ==> !n.active
  }

  // objs are the objects linked into the tree.
  lemma IdleApart(s: set<RItem>, ns: set<RadixNode>, top: RadixNode, repr: set<RadixNode>, objs: set<RadixNode>)
    requires SlotsOk(s, ns, top) && FlagsOk(s, ns, repr)
    requires forall o :: o in objs ==> o in ns || exists x :: x in s && x.id == o
    ensures Idle(s, ns) !! objs && Idle(s, ns) <= repr && Unused(Idle(s, ns))
  {
    forall n | n in Idle(s, ns) ensures n !in objs && n in repr && !n.active {
      var x :| x in s && x.id.twin == n && n !in ns;
      assert Proper(x, top);
      forall y | y in s ensures y.id != n {
        if y != x { assert Apart(x, y); }
      }
    }
  }

  lemma FlagsAgain(s': set<RItem>, ns': set<RadixNode>, repr': set<RadixNode>, idle: set<RadixNode>)
    requires ns' <= repr' && idle <= repr' && Idle(s', ns') <= idle
    requires (forall n :: n in ns' ==> n.active) && Unused(idle)
    ensures FlagsOk(s', ns', repr')
  {
    forall x | x in s' && x.id.twin != null ensures x.id.twin in repr' && (x.id.twin.active <==> x.id.twin in ns') {
      if x.id.twin !in ns' { assert x.id.twin in Idle(s', ns'); }
    }
  }

  // When entry x leaves, nothing new stands by idle, and neither does the slot of x.
  lemma IdleRest(s: set<RItem>, ns: set<RadixNode>, ns': set<RadixNode>, top: RadixNode, x: RItem)
    requires PairsOk(s, top) && x in s && forall n :: n in ns && n !in ns' ==> n == x.id.twin
    ensures Idle(s - {x}, ns') <= Idle(s, ns) && Idle(s - {x}, ns') !! ns' && x.id.twin !in Idle(s - {x}, ns')
  {
    forall n | n in Idle(s - {x}, ns') ensures n in Idle(s, ns) && n !in ns' && n != x.id.twin {
      var z :| z in s - {x} && z.id.twin == n && n !in ns';
      assert Apart(x, z);
    }
  }
}
