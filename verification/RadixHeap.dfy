// The radix tree as netinet/radix.c keeps it: nodes linked through rn_l, rn_r, rn_p and
// rn_dupedkey and changed in place.  A ghost tree says what the links stand for.

module RadixNodes {
  import opened RadixTree

  // One struct radix_node.  A leaf and the internal node allocated with it are two objects;
  // twin is the second of the pair (tt + 1 in the source).
  class RadixNode {
    var b: int                 // rn_b: the bit tested, or -1 - index(mask) at a leaf
    var p: RadixNode?          // rn_p
    var active: bool           // RNF_ACTIVE
    var root: bool             // RNF_ROOT
    var key: Key               // rn_key
    var mask: Mask             // rn_mask
    var duped: RadixNode?      // rn_dupedkey
    var lifted: bool           // a leaf's rn_mklist is not null
    var l: RadixNode?          // rn_l
    var r: RadixNode?          // rn_r
    var mklist: seq<Ann<RadixNode>>  // an internal node's rn_mklist
    const twin: RadixNode?

    constructor (twin: RadixNode?)
      ensures this.twin == twin && !active && !root && p == null && l == null && r == null && mklist == []
      ensures duped == null && !lifted && b == 0 && key == [] && mask == Host
    {
      this.twin := twin;
      b, p, active, root := 0, null, false, false;
      key, mask, duped, lifted := [], Host, null, false;
      l, r, mklist := null, null, [];
    }

    // A root leaf as rn_inithead sets it up.
    constructor RootLeaf(key: Key, p: RadixNode, twin: RadixNode?)
      ensures this.twin == twin && IsRootLeaf(key, p)
    {
      this.twin, this.key, this.p := twin, key, p;
      b, mask, duped, lifted, root, active := -1, Host, null, false, true, true;
      l, r, mklist := null, null, [];
    }

    ghost predicate IsRootLeaf(key: Key, p: RadixNode)
      reads this
    {
      && b == -1 && this.key == key && mask == Host && root && !lifted && active && duped == null && this.p == p
    }

    // Fills an unused slot as the leaf of a route.
    method SetLeaf(key: Key, mask: Mask, duped: RadixNode?, p: RadixNode)
      modifies this
      ensures this.key == key && this.mask == mask && this.duped == duped && this.p == p
      ensures b == LeafIndex(mask) && active && !root && !lifted
    {
      this.key, this.mask, this.duped, this.p := key, mask, duped, p;
      b, active, root, lifted := LeafIndex(mask), true, false, false;
    }

    // Links an unused internal node in as the one that tests bit b between p, l and r.
    method SetTop(l: RadixNode, r: RadixNode)
      modifies this
      ensures b == 0 && mklist == [] && this.l == l && this.r == r && p == this && active && root
    {
      b, mklist, this.l, this.r, p, active, root := 0, [], l, r, this, true, true;
    }
  }

  type RTree = Tree<RadixNode>
  type RPath = Path<RadixNode>
  type REntry = Entry<RadixNode>

  function LeafIndex(m: Mask): int {
    match m
    case Host => -1
    case Net(len) => -1 - len
  }

  ghost function ChainObjs(chain: seq<REntry>): set<RadixNode> {
    set i | 0 <= i < |chain| :: chain[i].id
  }

  ghost function Objs(t: RTree): set<RadixNode> {
    match t
    case Leaf(_, chain) => ChainObjs(chain)
    case Node(n, _, _, l, r) => {n} + Objs(l) + Objs(r)
  }

  ghost function RootOf(t: RTree): RadixNode? {
    match t
    case Leaf(_, chain) => if chain == [] then null else chain[0].id
    case Node(n, _, _, _, _) => n
  }

  ghost predicate EntryWired(key: Key, chain: seq<REntry>, i: nat, p: RadixNode)
    requires i < |chain|
    reads chain[i].id
  {
    var n := chain[i].id;
    && n.b == LeafIndex(chain[i].mask) && n.key == key && n.mask == chain[i].mask
    && n.root == chain[i].root && n.lifted == chain[i].lifted && n.active
    && n.duped == (if i + 1 < |chain| then chain[i + 1].id else null)
    && n.p == (if i == 0 then p else chain[i - 1].id)
  }

  ghost predicate ChainWired(key: Key, chain: seq<REntry>, p: RadixNode)
    reads ChainObjs(chain)
  {
    chain != [] && forall i :: 0 <= i < |chain| ==> EntryWired(key, chain, i, p)
  }

  ghost predicate NodeWired(n: RadixNode, pre: Key, anns: seq<Ann<RadixNode>>, l: RadixNode?, r: RadixNode?,
                            p: RadixNode)
    reads n
  {
    n.b == |pre| && n.mklist == anns && n.l == l && n.r == r && n.p == p && n.active && n.root == (n == p)
  }

  // The objects of t are linked as t says, below the parent p.
  ghost predicate Wired(t: RTree, p: RadixNode)
    reads Objs(t)
  {
    match t
    case Leaf(key, chain) =>
      ChainWired(key, chain, p)
    case Node(n, pre, anns, l, r) =>
      NodeWired(n, pre, anns, RootOf(l), RootOf(r), p) && Wired(l, n) && Wired(r, n)
  }

  ghost predicate Distinct(t: RTree) {
    match t
    case Leaf(_, chain) => forall i, j :: 0 <= i < j < |chain| ==> chain[i].id != chain[j].id
    case Node(n, _, _, l, r) =>
      n !in Objs(l) && n !in Objs(r) && Objs(l) !! Objs(r) && Distinct(l) && Distinct(r)
  }

  // ---- the same along a path ---------------------------------------------------------------

  ghost function SpineObjs(path: RPath): set<RadixNode> {
    set i | 0 <= i < |path| :: path[i].n
  }

  ghost function SibObjs(path: RPath): set<RadixNode> {
    if path == [] then {} else Objs(path[0].sib) + SibObjs(path[1..])
  }

  ghost function Above(path: RPath, i: nat, p: RadixNode): RadixNode
    requires i <= |path|
  {
    if i == 0 then p else path[i - 1].n
  }

  ghost function Below(path: RPath, i: nat, f: RadixNode?): RadixNode?
    requires i < |path|
  {
    if i + 1 < |path| then path[i + 1].n else f
  }

  // The nodes of the path, from the parent p of its first node down to f.
  ghost predicate SpineWired(path: RPath, f: RadixNode?, p: RadixNode)
    reads SpineObjs(path)
  {
    forall i :: 0 <= i < |path| ==> SpineNodeWired(path[i], Below(path, i, f), Above(path, i, p))
  }

  ghost predicate SpineNodeWired(fr: Frame<RadixNode>, down: RadixNode?, p: RadixNode)
    reads fr.n
  {
    NodeWired(fr.n, fr.pre, fr.anns, if fr.right then RootOf(fr.sib) else down,
              if fr.right then down else RootOf(fr.sib), p)
  }

  // The subtrees beside the path.
  ghost predicate SibsWired(path: RPath)
    reads SibObjs(path)
  {
    path == [] || (Wired(path[0].sib, path[0].n) && SibsWired(path[1..]))
  }

  ghost predicate SibsApart(path: RPath) {
    path == [] || (Distinct(path[0].sib) && Objs(path[0].sib) !! SibObjs(path[1..]) && SibsApart(path[1..]))
  }

  ghost predicate SpineApart(path: RPath) {
    path == [] || (path[0].n !in SpineObjs(path[1..]) && SpineApart(path[1..]))
  }

  // No object occurs twice among the nodes of the path, the subtrees beside it and the set s.
  ghost predicate PathDistinct(path: RPath, s: set<RadixNode>) {
    && SpineApart(path) && SibsApart(path)
    && SpineObjs(path) !! SibObjs(path) && SpineObjs(path) !! s && SibObjs(path) !! s
  }

  lemma {:induction false} PlugObjs(path: RPath, f: RTree)
    ensures Objs(Plug(path, f)) == Objs(f) + SpineObjs(path) + SibObjs(path)
  {
    if path != [] {
      PlugObjs(path[1..], f);
      SpineCons(path);
    }
  }

  lemma SpineCons(path: RPath)
    requires path != []
    ensures SpineObjs(path) == {path[0].n} + SpineObjs(path[1..])
  {
    var rest := path[1..];
    forall o | o in SpineObjs(path) ensures o in {path[0].n} + SpineObjs(rest) {
      var i :| 0 <= i < |path| && o == path[i].n;
      if i > 0 { assert o == rest[i - 1].n; }
    }
    forall o | o in SpineObjs(rest) ensures o in SpineObjs(path) {
      var i :| 0 <= i < |rest| && o == rest[i].n;
      assert o == path[i + 1].n;
    }
  }

  lemma {:induction false} PlugWired(path: RPath, f: RTree, p: RadixNode)
    ensures Wired(Plug(path, f), p) <==>
      SpineWired(path, RootOf(f), p) && SibsWired(path) && Wired(f, Above(path, |path|, p))
  {
    if path != [] {
      PlugWired(path[1..], f, path[0].n);
      SpineWiredCons(path, f, p);
    }
  }

  lemma SpineWiredCons(path: RPath, f: RTree, p: RadixNode)
    requires path != []
    ensures SpineWired(path, RootOf(f), p) <==>
      && SpineNodeWired(path[0], RootOf(Plug(path[1..], f)), p)
      && SpineWired(path[1..], RootOf(f), path[0].n)
    ensures Above(path, |path|, p) == Above(path[1..], |path| - 1, path[0].n)
  {
    var rest, r := path[1..], RootOf(f);
    assert RootOf(Plug(rest, f)) == Below(path, 0, r);
    forall i | 0 <= i < |rest|
      ensures rest[i] == path[i + 1] && Below(rest, i, r) == Below(path, i + 1, r)
           && Above(rest, i, path[0].n) == Above(path, i + 1, p)
    {}
    if SpineWired(path, r, p) {
      forall i | 0 <= i < |rest| ensures SpineNodeWired(rest[i], Below(rest, i, r), Above(rest, i, path[0].n)) {
        assert SpineNodeWired(path[i + 1], Below(path, i + 1, r), Above(path, i + 1, p));
      }
    }
    if SpineWired(rest, r, path[0].n) && SpineNodeWired(path[0], Below(path, 0, r), p) {
      forall i | 0 <= i < |path| ensures SpineNodeWired(path[i], Below(path, i, r), Above(path, i, p)) {
        if i > 0 {
          assert SpineNodeWired(rest[i - 1], Below(rest, i - 1, r), Above(rest, i - 1, path[0].n));
        }
      }
    }
  }

  lemma {:induction false} PlugDistinct(path: RPath, f: RTree)
    ensures Distinct(Plug(path, f)) <==> Distinct(f) && PathDistinct(path, Objs(f))
  {
    if path != [] {
      PlugDistinct(path[1..], f);
      PlugObjs(path[1..], f);
      SpineCons(path);
    }
  }

  lemma InSpine(path: RPath, i: nat)
    requires i < |path|
    ensures path[i].n in SpineObjs(path)
  {
  }

  lemma {:induction false} SpineDiffer(path: RPath, i: nat, j: nat)
    requires SpineApart(path) && i < |path| && j < |path| && i != j
    ensures path[i].n != path[j].n
  {
    if i > 0 && j > 0 {
      SpineDiffer(path[1..], i - 1, j - 1);
      assert path[1..][i - 1] == path[i] && path[1..][j - 1] == path[j];
    } else {
      var k := if i == 0 then j else i;
      assert path[1..][k - 1] == path[k];
      InSpine(path[1..], k - 1);
    }
  }

  lemma {:induction false} TreeObjs(t: RTree)
    ensures Internals(t) <= Objs(t)
    ensures forall x :: x in Items(t) ==> x.id in Objs(t)
    ensures forall o :: o in Objs(t) ==> o in Internals(t) || exists x :: x in Items(t) && x.id == o
  {
    if t.Leaf? {
      forall x | x in Items(t) ensures x.id in Objs(t) {
        var i :| 0 <= i < |t.chain| && x.id == t.chain[i].id;
      }
      forall o | o in Objs(t) ensures exists x :: x in Items(t) && x.id == o {
        var i :| 0 <= i < |t.chain| && o == t.chain[i].id;
        assert t.chain[i] in t.chain;
        assert Item(t.key, t.chain[i].mask, t.chain[i].root, o) in Items(t);
      }
    } else {
      TreeObjs(t.l);
      TreeObjs(t.r);
    }
  }

  lemma {:induction false} ActiveInternals(t: RTree, p: RadixNode)
    requires Wired(t, p)
    ensures forall n :: n in Internals(t) ==> n.active
  {
    if t.Node? {
      ActiveInternals(t.l, t.n);
      ActiveInternals(t.r, t.n);
    }
  }
}
