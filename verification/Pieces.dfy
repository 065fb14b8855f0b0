// Stretches of a byte sequence by their offsets: what segments and fragments are cut into.

module Pieces {

  // The bytes o .. o + n; fin: the sequence is said to end with them.
  datatype Piece = Piece(o: nat, n: nat, fin: bool)

  function End(p: Piece): nat { p.o + p.n }

  ghost predicate Holds(p: Piece, x: int) { p.o <= x < End(p) }

  ghost predicate Covers(ps: seq<Piece>, x: int) {
    ps != [] && (Holds(ps[0], x) || Covers(ps[1..], x))
  }

  lemma {:induction false} CoversJoin(a: seq<Piece>, b: seq<Piece>)
    ensures forall x :: Covers(a + b, x) <==> Covers(a, x) || Covers(b, x)
  {
    if a == [] {
      assert a + b == b;
    } else {
      CoversJoin(a[1..], b);
      assert (a + b)[1..] == a[1..] + b;
    }
  }

  lemma {:induction false} HeldAt(ps: seq<Piece>, i: nat, x: int)
    requires i < |ps| && Holds(ps[i], x)
    ensures Covers(ps, x)
  {
    if i > 0 { HeldAt(ps[1..], i - 1, x); }
  }
}
