// The reassembly queue by absolute stream offsets: what insertion and presentation do to the set of
// bytes held, without sequence numbers.

module TcpPieces {
  import opened Pieces

  // The piece carries a FIN behind its last byte, at x.  A segment cut off at the edge of the window
  // keeps its FIN, so x need not be the end of the stream.
  predicate Marks(p: Piece, x: int) { p.fin && End(p) == x }

  ghost predicate MarkedAt(ps: seq<Piece>, x: int) {
    ps != [] && (Marks(ps[0], x) || MarkedAt(ps[1..], x))
  }

  // Taken from a stream of len bytes; only the FIN at its end may go without bytes.
  ghost predicate Cut(p: Piece, len: nat) {
    End(p) <= len && (p.n == 0 ==> p.fin && p.o == len)
  }

  // As the peer sends it: a FIN ends the stream.
  ghost predicate Sent(p: Piece, len: nat) { Cut(p, len) && (p.fin ==> End(p) == len) }

  // No FIN is marked but at the end of the stream.
  ghost predicate Honest(ps: seq<Piece>, len: nat) {
    forall x :: MarkedAt(ps, x) ==> x == len
  }

  // All begin at lo or later, in order and disjoint.
  ghost predicate Sorted(ps: seq<Piece>, lo: nat, len: nat) {
    ps == [] || (lo <= ps[0].o && Cut(ps[0], len) && Sorted(ps[1..], End(ps[0]), len))
  }

  lemma {:induction false} SortedAt(ps: seq<Piece>, lo: nat, len: nat, i: nat)
    requires Sorted(ps, lo, len) && i < |ps|
    ensures lo <= ps[i].o && Cut(ps[i], len) && Sorted(ps[i..], ps[i].o, len)
    ensures i > 0 ==> End(ps[i - 1]) <= ps[i].o
  {
    if i > 0 {
      SortedAt(ps[1..], End(ps[0]), len, i - 1);
      assert ps[1..][i - 1..] == ps[i..];
      if i > 1 { assert ps[1..][i - 2] == ps[i - 1]; }
    } else {
      assert ps[0..] == ps;
    }
  }

  lemma {:induction false} CoversAbove(ps: seq<Piece>, lo: nat, len: nat, x: int)
    requires Sorted(ps, lo, len) && Covers(ps, x)
    ensures lo <= x < len
  {
    if !Holds(ps[0], x) { CoversAbove(ps[1..], End(ps[0]), len, x); }
  }

  lemma {:induction false} Join(a: seq<Piece>, b: seq<Piece>)
    ensures forall x :: Covers(a + b, x) <==> Covers(a, x) || Covers(b, x)
    ensures forall x :: MarkedAt(a + b, x) <==> MarkedAt(a, x) || MarkedAt(b, x)
  {
    CoversJoin(a, b);
    if a == [] {
      assert a + b == b;
    } else {
      Join(a[1..], b);
      assert (a + b)[1..] == a[1..] + b;
    }
  }

  // The end of the pieces in a, which come after lo.
  function Reach(a: seq<Piece>, lo: nat): nat { if a == [] then lo else End(a[|a| - 1]) }

  lemma {:induction false} JoinSorted(a: seq<Piece>, b: seq<Piece>, lo: nat, len: nat)
    ensures Sorted(a + b, lo, len) <==> Sorted(a, lo, len) && Sorted(b, Reach(a, lo), len)
  {
    if a == [] {
      assert a + b == b;
    } else {
      JoinSorted(a[1..], b, End(a[0]), len);
      assert (a + b)[1..] == a[1..] + b;
      assert Reach(a, lo) == Reach(a[1..], End(a[0]));
    }
  }

  // ---- insertion -----------------------------------------------------------------------------------

  // The first piece that begins after offset o.
  function Place(ps: seq<Piece>, o: nat, k: nat): (j: nat)
    requires k <= |ps|
    ensures k <= j <= |ps| && (forall i :: k <= i < j ==> ps[i].o <= o) && (j < |ps| ==> ps[j].o > o)
    decreases |ps| - k
  {
    if k == |ps| || ps[k].o > o then k else Place(ps, o, k + 1)
  }

  // The preceding piece provides all of t's bytes.
  predicate Swallowed(ps: seq<Piece>, t: Piece) {
    var k := Place(ps, t.o, 0);
    k > 0 && End(ps[k - 1]) > t.o && End(ps[k - 1]) >= End(t)
  }

  function TrimHead(p: Piece, i: nat): Piece
    requires i <= p.n
  {
    Piece(p.o + i, p.n - i, p.fin)
  }

  // What is left of t after the bytes the preceding piece provides.
  function Rest(ps: seq<Piece>, t: Piece): Piece
    requires !Swallowed(ps, t)
  {
    var k := Place(ps, t.o, 0);
    if k > 0 && End(ps[k - 1]) > t.o then TrimHead(t, End(ps[k - 1]) - t.o) else t
  }

  // The following pieces without the bytes below e.
  function Eat(ps: seq<Piece>, e: nat): seq<Piece> {
    if ps == [] || e <= ps[0].o then ps
    else if e - ps[0].o < ps[0].n then [TrimHead(ps[0], e - ps[0].o)] + ps[1..]
    else Eat(ps[1..], e)
  }

  function Insert(ps: seq<Piece>, t: Piece): seq<Piece> {
    if Swallowed(ps, t) then ps else
      var k := Place(ps, t.o, 0);
      ps[..k] + [Rest(ps, t)] + Eat(ps[k..], End(t))
  }

  lemma {:induction false} EatKeeps(ps: seq<Piece>, lo: nat, e: nat, len: nat)
    requires Sorted(ps, lo, len)
    ensures Sorted(Eat(ps, e), if lo < e then e else lo, len)
    ensures forall x :: Covers(Eat(ps, e), x) <==> Covers(ps, x) && x >= e
  {
    if ps == [] {
    } else if e <= ps[0].o {
      forall x | Covers(ps, x) ensures x >= e { CoversAbove(ps, ps[0].o, len, x); }
    } else if e - ps[0].o < ps[0].n {
      assert Eat(ps, e)[1..] == ps[1..];
      forall x | Covers(ps[1..], x) ensures x >= e { CoversAbove(ps[1..], End(ps[0]), len, x); }
    } else {
      EatKeeps(ps[1..], End(ps[0]), e, len);
    }
  }

  // The queue around the place where t goes.
  lemma {:induction false} Around(ps: seq<Piece>, t: Piece, lo: nat, len: nat)
    requires Sorted(ps, lo, len) && Cut(t, len) && lo <= t.o
    ensures var k := Place(ps, t.o, 0);
      && ps == ps[..k] + ps[k..] && Sorted(ps[..k], lo, len) && Sorted(ps[k..], Reach(ps[..k], lo), len)
      && (k > 0 ==> Reach(ps[..k], lo) == End(ps[k - 1]) && ps[k - 1].o <= t.o && Cut(ps[k - 1], len))
      && (!Swallowed(ps, t) ==>
            var t' := Rest(ps, t);
            Reach(ps[..k], lo) <= t'.o && End(t') == End(t) && Cut(t', len) && t.o <= t'.o
                && (t'.o > t.o ==> k > 0 && t'.o == End(ps[k - 1])))
  {
    hide Sorted, Covers;
    var k := Place(ps, t.o, 0);
    assert ps == ps[..k] + ps[k..];
    JoinSorted(ps[..k], ps[k..], lo, len);
    if k > 0 { SortedAt(ps, lo, len, k - 1); }
  }

  lemma ConsSorted(t: Piece, c: seq<Piece>, lo: nat, len: nat)
    requires lo <= t.o && Cut(t, len) && Sorted(c, End(t), len)
    ensures Sorted([t] + c, lo, len)
  {
    assert ([t] + c)[1..] == c;
  }

  lemma {:induction false} InsertSorted(ps: seq<Piece>, t: Piece, lo: nat, len: nat)
    requires Sorted(ps, lo, len) && Cut(t, len) && lo <= t.o
    ensures Sorted(Insert(ps, t), lo, len)
  {
    hide Sorted, Eat, Reach, Cut, Place;
    Around(ps, t, lo, len);
    if !Swallowed(ps, t) {
      InsertParts(ps, t);
      var k := Place(ps, t.o, 0);
      InsertedSorted(ps[..k], ps[k..], Rest(ps, t), End(t), lo, len);
    }
  }

  lemma {:induction false} InsertedSorted(a: seq<Piece>, b: seq<Piece>, t: Piece, e: nat, lo: nat, len: nat)
    requires Sorted(a, lo, len) && Sorted(b, Reach(a, lo), len) && Reach(a, lo) <= t.o && End(t) == e && Cut(t, len)
    ensures Sorted(a + ([t] + Eat(b, e)), lo, len)
  {
    hide Sorted, Eat, Reach, Cut;
    EatKeeps(b, Reach(a, lo), e, len);
    SortedLow(b, Reach(a, lo), e, len);
    ConsSorted(t, Eat(b, e), Reach(a, lo), len);
    JoinSorted(a, [t] + Eat(b, e), lo, len);
  }

  // Insertion keeps the queue sorted and adds exactly the bytes of t.
  lemma {:induction false} InsertKeeps(ps: seq<Piece>, t: Piece, lo: nat, len: nat)
    requires Sorted(ps, lo, len) && Cut(t, len) && lo <= t.o
    ensures Sorted(Insert(ps, t), lo, len)
    ensures forall x :: Covers(Insert(ps, t), x) <==> Covers(ps, x) || Holds(t, x)
  {
    hide Sorted, Cut, Covers, Reach, Eat;
    InsertSorted(ps, t, lo, len);
    Around(ps, t, lo, len);
    var k := Place(ps, t.o, 0);
    if Swallowed(ps, t) {
      forall x | Holds(t, x) ensures Covers(ps, x) { HeldAt(ps, k - 1, x); }
    } else {
      InsertParts(ps, t);
      var a, b, t' := ps[..k], ps[k..], Rest(ps, t);
      forall x | Holds(t, x) && !Holds(t', x) ensures Covers(a, x) { HeldAt(a, k - 1, x); }
      InsertedCovers(a, b, t, t', lo, len);
    }
  }

  lemma {:induction false} InsertedCovers(a: seq<Piece>, b: seq<Piece>, t: Piece, t': Piece, lo: nat, len: nat)
    requires Sorted(b, Reach(a, lo), len) && (b != [] ==> b[0].o > t.o)
    requires End(t') == End(t) && (t'.o == t.o || (t'.o == Reach(a, lo) && t'.o >= t.o))
    requires forall x :: Holds(t, x) && !Holds(t', x) ==> Covers(a, x)
    ensures forall x :: Covers(a + ([t'] + Eat(b, End(t))), x) <==> Covers(a + b, x) || Holds(t, x)
  {
    hide Sorted, Covers, Reach, Eat;
    var c := Eat(b, End(t));
    EatKeeps(b, Reach(a, lo), End(t), len);
    Filled(b, t, t', Reach(a, lo), len);
    ConsCovers(t', c);
    Join(a, b);
    Join(a, [t'] + c);
  }

  lemma ConsCovers(t: Piece, c: seq<Piece>)
    ensures forall x :: Covers([t] + c, x) <==> Holds(t, x) || Covers(c, x)
  {
    assert ([t] + c)[1..] == c;
  }

  // What is eaten from the following pieces is in t as well.
  lemma {:induction false} Filled(b: seq<Piece>, t: Piece, t': Piece, lo: nat, len: nat)
    requires Sorted(b, lo, len) && (b != [] ==> b[0].o > t.o)
    requires End(t') == End(t) && (t'.o == t.o || t'.o == lo)
    ensures forall x :: Covers(b, x) && x < End(t) ==> Holds(t', x)
  {
    forall x | Covers(b, x) && x < End(t) ensures Holds(t', x) {
      CoversAbove(b, b[0].o, len, x);
    }
  }

  lemma SortedLow(b: seq<Piece>, lo: nat, e: nat, len: nat)
    requires Sorted(Eat(b, e), if lo < e then e else lo, len)
    ensures Sorted(Eat(b, e), e, len)
  {
  }

  lemma InsertParts(ps: seq<Piece>, t: Piece)
    requires !Swallowed(ps, t)
    ensures var k := Place(ps, t.o, 0);
      && Insert(ps, t) == ps[..k] + ([Rest(ps, t)] + Eat(ps[k..], End(t))) && ps[..k] + ps[k..] == ps
  {
  }

  // ---- the FIN ---------------------------------------------------------------------------------------

  // Insertion of t removes g altogether.
  predicate Inside(g: Piece, t: Piece) { t.o < g.o < End(t) && End(g) <= End(t) }

  // A FIN at x is on a piece that the insertion of t leaves.
  ghost predicate Spared(ps: seq<Piece>, t: Piece, x: int) {
    ps != [] && ((Marks(ps[0], x) && !Inside(ps[0], t)) || Spared(ps[1..], t, x))
  }

  // The FIN at x gets lost: it came on a segment whose bytes were all there, or the one queued came
  // with bytes that a longer segment without it covers.
  ghost predicate LosesFin(ps: seq<Piece>, t: Piece, x: int) {
    if Swallowed(ps, t) then Marks(t, x) && !MarkedAt(ps, x) else !Marks(t, x) && MarkedAt(ps, x) && !Spared(ps, t, x)
  }

  lemma {:induction false} SparedJoin(a: seq<Piece>, b: seq<Piece>, t: Piece, x: int)
    ensures Spared(a + b, t, x) <==> Spared(a, t, x) || Spared(b, t, x)
  {
    if a == [] {
      assert a + b == b;
    } else {
      SparedJoin(a[1..], b, t, x);
      assert (a + b)[1..] == a[1..] + b;
    }
  }

  // What begins no later than t is spared.
  lemma {:induction false} SparedBefore(a: seq<Piece>, t: Piece, x: int)
    requires forall i :: 0 <= i < |a| ==> a[i].o <= t.o
    ensures Spared(a, t, x) <==> MarkedAt(a, x)
  {
    if a != [] { SparedBefore(a[1..], t, x); }
  }

  // What begins behind t is spared.
  lemma {:induction false} SparedAfter(b: seq<Piece>, t: Piece, lo: nat, len: nat, x: int)
    requires Sorted(b, lo, len) && End(t) <= lo
    ensures Spared(b, t, x) <==> MarkedAt(b, x)
  {
    if b != [] { SparedAfter(b[1..], t, End(b[0]), len, x); }
  }

  lemma {:induction false} EatMarks(b: seq<Piece>, t: Piece, lo: nat, len: nat, x: int)
    requires Sorted(b, lo, len) && (b != [] ==> b[0].o > t.o) && End(t) <= len
    ensures MarkedAt(Eat(b, End(t)), x) <==> Spared(b, t, x)
  {
    if b != [] {
      var e := End(t);
      if e <= b[0].o {
        SparedAfter(b, t, b[0].o, len, x);
      } else if e - b[0].o < b[0].n {
        SparedAfter(b[1..], t, End(b[0]), len, x);
        assert Eat(b, e)[1..] == b[1..];
      } else {
        NextLater(b, len);
        EatMarks(b[1..], t, End(b[0]), len, x);
      }
    }
  }

  lemma NextLater(b: seq<Piece>, len: nat)
    requires b != [] && Sorted(b, b[0].o, len)
    ensures |b| > 1 ==> b[1].o >= b[0].o
  {
  }

  lemma ConsMarks(t: Piece, c: seq<Piece>, x: int)
    ensures MarkedAt([t] + c, x) <==> Marks(t, x) || MarkedAt(c, x)
  {
    assert ([t] + c)[1..] == c;
  }

  // A FIN is marked at x afterwards exactly when one was before or comes with t, and is not lost.
  lemma {:induction false} InsertMarks(ps: seq<Piece>, t: Piece, lo: nat, len: nat, x: int)
    requires Sorted(ps, lo, len) && Cut(t, len) && lo <= t.o
    ensures MarkedAt(Insert(ps, t), x) <==> (MarkedAt(ps, x) || Marks(t, x)) && !LosesFin(ps, t, x)
  {
    hide Sorted, Eat, Covers, Cut, MarkedAt, Spared, Reach;
    Around(ps, t, lo, len);
    CutEnd(t, len);
    if !Swallowed(ps, t) {
      var k := Place(ps, t.o, 0);
      var a, b := ps[..k], ps[k..];
      InsertParts(ps, t);
      Join(a, b);
      Join(a, [Rest(ps, t)] + Eat(b, End(t)));
      ConsMarks(Rest(ps, t), Eat(b, End(t)), x);
      EatMarks(b, t, Reach(a, lo), len, x);
      SparedJoin(a, b, t, x);
      SparedBefore(a, t, x);
      SomeSpared(ps, t, x);
    }
  }

  lemma CutEnd(t: Piece, len: nat)
    requires Cut(t, len)
    ensures End(t) <= len
  {
  }

  lemma {:induction false} SomeSpared(ps: seq<Piece>, t: Piece, x: int)
    ensures Spared(ps, t, x) ==> MarkedAt(ps, x)
  {
    if ps != [] { SomeSpared(ps[1..], t, x); }
  }

  // ---- presentation ------------------------------------------------------------------------------------

  // How many pieces follow on from nxt without a gap.
  function Ready(ps: seq<Piece>, nxt: nat): (c: nat)
    ensures c <= |ps|
  {
    if ps == [] || ps[0].o != nxt then 0 else 1 + Ready(ps[1..], End(ps[0]))
  }

  // Presentation goes exactly to the first byte that is missing.
  lemma {:induction false} ReadyIsGap(ps: seq<Piece>, nxt: nat, len: nat)
    requires Sorted(ps, nxt, len)
    ensures var c := Ready(ps, nxt);
      var nxt' := Reach(ps[..c], nxt);
      && nxt <= nxt' && (forall x :: nxt <= x < nxt' ==> Covers(ps, x)) && !Covers(ps, nxt')
      && Sorted(ps[c..], nxt', len) && (c < |ps| ==> ps[c].o > nxt')
      && (forall x :: Covers(ps[c..], x) <==> Covers(ps, x) && x >= nxt')
  {
    if ps == [] {
    } else if ps[0].o != nxt {
      assert ps[0..] == ps;
      forall x | Covers(ps, x) ensures x > nxt { CoversAbove(ps, ps[0].o, len, x); }
    } else {
      var rest, d := ps[1..], Ready(ps[1..], End(ps[0]));
      ReadyIsGap(rest, End(ps[0]), len);
      assert ps[..d + 1][1..] == rest[..d] && ps[d + 1..] == rest[d..];
      assert Reach(ps[..d + 1], nxt) == Reach(rest[..d], End(ps[0]));
    }
  }

  // The last piece presented has a FIN exactly when one is marked where presentation stops.
  lemma {:induction false} ReadyFin(ps: seq<Piece>, nxt: nat, len: nat)
    requires Sorted(ps, nxt, len)
    ensures var c := Ready(ps, nxt);
      (c > 0 && ps[c - 1].fin) <==> MarkedAt(ps, Reach(ps[..c], nxt))
    decreases |ps|
  {
    if ps == [] {
    } else if ps[0].o != nxt {
      NoMark(ps, ps[0].o, len, nxt);
    } else {
      var rest, d := ps[1..], Ready(ps[1..], End(ps[0]));
      ReadyFin(rest, End(ps[0]), len);
      assert ps[..d + 1][1..] == rest[..d];
      assert Reach(ps[..d + 1], nxt) == Reach(rest[..d], End(ps[0]));
      if d > 0 { SortedAt(rest, End(ps[0]), len, d - 1); }
    }
  }

  lemma {:induction false} NoMark(ps: seq<Piece>, lo: nat, len: nat, x: nat)
    requires Sorted(ps, lo, len) && x < lo
    ensures !MarkedAt(ps, x)
  {
    if ps != [] { NoMark(ps[1..], End(ps[0]), len, x); }
  }

  lemma {:induction false} MarksBelow(a: seq<Piece>, lo: nat, len: nat, x: int)
    requires Sorted(a, lo, len) && MarkedAt(a, x)
    ensures x <= Reach(a, lo)
  {
    if Marks(a[0], x) {
      SortedAt(a, lo, len, |a| - 1);
      if |a| > 1 { FirstEnds(a, lo, len, |a| - 1); }
    } else {
      MarksBelow(a[1..], End(a[0]), len, x);
    }
  }

  lemma FirstEnds(a: seq<Piece>, lo: nat, len: nat, i: nat)
    requires Sorted(a, lo, len) && 0 < i < |a|
    ensures End(a[0]) <= a[i].o
  {
    SortedAt(a[1..], End(a[0]), len, i - 1);
  }

  // Presentation takes the FINs up to where it stops off the queue and leaves the others.
  lemma {:induction false} ReadyMarks(ps: seq<Piece>, nxt: nat, len: nat, x: int)
    requires Sorted(ps, nxt, len) && MarkedAt(ps, x)
    ensures var c := Ready(ps, nxt);
      MarkedAt(ps[c..], x) <==> x > Reach(ps[..c], nxt)
  {
    hide Sorted, MarkedAt, Ready, Reach, Covers;
    var c := Ready(ps, nxt);
    ReadyIsGap(ps, nxt, len);
    assert ps == ps[..c] + ps[c..];
    Join(ps[..c], ps[c..]);
    JoinSorted(ps[..c], ps[c..], nxt, len);
    MarkNat(ps, x);
    if MarkedAt(ps[..c], x) { MarksBelow(ps[..c], nxt, len, x); }
    if c < |ps| && x <= Reach(ps[..c], nxt) {
      LaterStart(ps[c..], Reach(ps[..c], nxt), len);
      NoMark(ps[c..], Reach(ps[..c], nxt) + 1, len, x);
    }
    if c == |ps| { NoneMarked(ps[c..], x); }
  }

  lemma LaterStart(b: seq<Piece>, lo: nat, len: nat)
    requires b != [] && Sorted(b, lo, len) && b[0].o > lo
    ensures Sorted(b, lo + 1, len)
  {
  }

  lemma {:induction false} MarkNat(ps: seq<Piece>, x: int)
    requires MarkedAt(ps, x)
    ensures x >= 0
  {
    if !Marks(ps[0], x) { MarkNat(ps[1..], x); }
  }

  lemma NoneMarked(b: seq<Piece>, x: int)
    requires b == []
    ensures !MarkedAt(b, x)
  {
  }

  // ---- one segment, and any number of them ---------------------------------------------------------------

  datatype Queue = Queue(nxt: nat, ps: seq<Piece>)

  ghost predicate Got(q: Queue, x: int) { x < q.nxt || Covers(q.ps, x) }

  // In order, with nothing left to present.
  ghost predicate Settled(q: Queue, len: nat) {
    q.nxt <= len && Sorted(q.ps, q.nxt, len) && (q.ps == [] || q.ps[0].o > q.nxt)
  }

  // Byte q.nxt is the first one missing.
  lemma Missing(q: Queue, len: nat)
    requires Settled(q, len)
    ensures !Got(q, q.nxt)
  {
    if Covers(q.ps, q.nxt) { CoversAbove(q.ps, q.ps[0].o, len, q.nxt); }
  }

  // Insertion and presentation.
  function Accept(q: Queue, t: Piece): Queue {
    var ps := Insert(q.ps, t);
    var c := Ready(ps, q.nxt);
    Queue(Reach(ps[..c], q.nxt), ps[c..])
  }

  // The FIN of the last piece presented.
  predicate Finished(q: Queue, t: Piece) {
    var ps := Insert(q.ps, t);
    var c := Ready(ps, q.nxt);
    c > 0 && ps[c - 1].fin
  }

  // The queue holds exactly what was received, and presentation stops at the first byte missing.
  // A FIN is reported exactly when one is marked at the first byte missing, and is not lost.
  lemma {:induction false} AcceptKeeps(q: Queue, t: Piece, len: nat)
    requires Settled(q, len) && Cut(t, len) && q.nxt <= t.o
    ensures var r := Accept(q, t);
      && Settled(r, len) && q.nxt <= r.nxt && !Got(r, r.nxt)
      && (forall x :: Got(r, x) <==> Got(q, x) || Holds(t, x))
      && (Finished(q, t) <==> (MarkedAt(q.ps, r.nxt) || Marks(t, r.nxt)) && !LosesFin(q.ps, t, r.nxt))
  {
    hide Sorted, Insert, Covers, Reach, Ready, MarkedAt, LosesFin;
    var ps := Insert(q.ps, t);
    InsertKeeps(q.ps, t, q.nxt, len);
    InsertMarks(q.ps, t, q.nxt, len, Accept(q, t).nxt);
    ReadyIsGap(ps, q.nxt, len);
    ReadyFin(ps, q.nxt, len);
    ReachBound(ps, q.nxt, Ready(ps, q.nxt), len);
    forall x | Covers(q.ps, x) || Holds(t, x) ensures Covers(ps, x) {}
    Missing(Accept(q, t), len);
  }

  lemma InsertWithin(ps: seq<Piece>, t: Piece, lo: nat, len: nat, i: nat)
    requires Sorted(ps, lo, len) && Cut(t, len) && lo <= t.o && i < |Insert(ps, t)|
    ensures var p := Insert(ps, t)[i];
      lo <= p.o && (End(p) == End(t) || exists j :: 0 <= j < |ps| && End(p) == End(ps[j]))
  {
    hide Sorted, Insert, Eat, Place, Rest, Swallowed, Cut;
    InsertSorted(ps, t, lo, len);
    SortedAt(Insert(ps, t), lo, len, i);
    if Swallowed(ps, t) {
      SwallowedSame(ps, t);
    } else {
      InsertParts(ps, t);
      Around(ps, t, lo, len);
      var k := Place(ps, t.o, 0);
      if i > k { EatEnds(ps[k..], End(t), i - k - 1); }
    }
  }

  lemma SwallowedSame(ps: seq<Piece>, t: Piece)
    requires Swallowed(ps, t)
    ensures Insert(ps, t) == ps
  {
  }

  lemma {:induction false} EatEnds(ps: seq<Piece>, e: nat, i: nat)
    requires i < |Eat(ps, e)|
    ensures exists j :: 0 <= j < |ps| && End(Eat(ps, e)[i]) == End(ps[j])
  {
    if e <= ps[0].o || e - ps[0].o < ps[0].n {
      assert End(Eat(ps, e)[i]) == End(ps[i]);
    } else {
      EatEnds(ps[1..], e, i);
      var j :| 0 <= j < |ps[1..]| && End(Eat(ps, e)[i]) == End(ps[1..][j]);
      assert End(Eat(ps, e)[i]) == End(ps[j + 1]);
    }
  }

  lemma ReachBound(ps: seq<Piece>, lo: nat, c: nat, len: nat)
    requires Sorted(ps, lo, len) && c <= |ps| && lo <= len
    ensures Reach(ps[..c], lo) <= len
  {
    if c > 0 { SortedAt(ps, lo, len, c - 1); }
  }

  // t without the bytes that are no longer expected.
  function Clip(t: Piece, nxt: nat): Piece
    requires End(t) >= nxt
  {
    if t.o < nxt then TrimHead(t, nxt - t.o) else t
  }

  // What a segment within the window does, whatever part of it is old.
  function Arrive(q: Queue, t: Piece): Queue {
    if End(t) < q.nxt || (End(t) == q.nxt && !t.fin) then q else Accept(q, Clip(t, q.nxt))
  }

  function ArriveAll(q: Queue, ts: seq<Piece>): Queue
    decreases |ts|
  {
    if ts == [] then q else ArriveAll(Arrive(q, ts[0]), ts[1..])
  }

  // Whatever the order, the repetition and the overlap of the segments, the bytes taken in are
  // those up to the first that was in none of them.
  lemma {:induction false} ArriveAllKeeps(q: Queue, ts: seq<Piece>, len: nat)
    requires Settled(q, len) && forall i :: 0 <= i < |ts| ==> Sent(ts[i], len)
    ensures var r := ArriveAll(q, ts);
      Settled(r, len) && q.nxt <= r.nxt && !Got(r, r.nxt) && forall x :: Got(r, x) <==> Got(q, x) || Covers(ts, x)
    decreases |ts|
  {
    Missing(q, len);
    if ts != [] {
      var t := ts[0];
      if !(End(t) < q.nxt || (End(t) == q.nxt && !t.fin)) {
        AcceptKeeps(q, Clip(t, q.nxt), len);
      }
      ArriveAllKeeps(Arrive(q, t), ts[1..], len);
    }
  }

  // What the queue holds came with the pieces ts.
  ghost predicate Log(q: Queue, ts: seq<Piece>) {
    && (forall x :: 0 <= x ==> (Got(q, x) <==> Covers(ts, x)))
    && (forall x :: MarkedAt(q.ps, x) ==> MarkedAt(ts, x))
  }

  lemma {:induction false} LogInsert(q: Queue, t: Piece, ts: seq<Piece>, len: nat)
    requires Sorted(q.ps, q.nxt, len) && Log(q, ts) && End(t) >= q.nxt && Cut(Clip(t, q.nxt), len)
    ensures Log(Queue(q.nxt, Insert(q.ps, Clip(t, q.nxt))), [t] + ts)
  {
    hide Sorted, Insert, Covers, MarkedAt, LosesFin;
    var p := Clip(t, q.nxt);
    InsertKeeps(q.ps, p, q.nxt, len);
    ConsCovers(t, ts);
    forall x | MarkedAt(Insert(q.ps, p), x) ensures MarkedAt([t] + ts, x) {
      InsertMarks(q.ps, p, q.nxt, len, x);
      ConsMarks(t, ts, x);
    }
  }

  lemma {:induction false} LogPresent(q: Queue, ts: seq<Piece>, len: nat)
    requires Sorted(q.ps, q.nxt, len) && Log(q, ts)
    ensures var c := Ready(q.ps, q.nxt);
      Log(Queue(Reach(q.ps[..c], q.nxt), q.ps[c..]), ts)
  {
    hide Sorted, Covers, MarkedAt, Ready, Reach;
    var c := Ready(q.ps, q.nxt);
    ReadyIsGap(q.ps, q.nxt, len);
    assert q.ps == q.ps[..c] + q.ps[c..];
    Join(q.ps[..c], q.ps[c..]);
  }

  lemma {:induction false} LogAccept(q: Queue, t: Piece, ts: seq<Piece>, len: nat)
    requires Sorted(q.ps, q.nxt, len) && Log(q, ts) && End(t) >= q.nxt && Cut(Clip(t, q.nxt), len)
    ensures var p := Clip(t, q.nxt);
      Log(Accept(q, p), [t] + ts) && (Finished(q, p) ==> MarkedAt([t] + ts, Accept(q, p).nxt))
  {
    hide Sorted, Covers, MarkedAt, Ready, Reach, Insert;
    var p := Clip(t, q.nxt);
    LogInsert(q, t, ts, len);
    InsertSorted(q.ps, p, q.nxt, len);
    LogPresent(Queue(q.nxt, Insert(q.ps, p)), [t] + ts, len);
    ReadyFin(Insert(q.ps, p), q.nxt, len);
  }

  // ---- FINs that come too early or not at all --------------------------------------------------------------

  // With honest marks a FIN is reported only with the whole stream, and marks stay honest.
  lemma {:induction false} HonestFin(q: Queue, t: Piece, len: nat)
    requires Settled(q, len) && Cut(t, len) && q.nxt <= t.o && Honest(q.ps, len) && (t.fin ==> End(t) == len)
    ensures Finished(q, t) ==> Accept(q, t).nxt == len
    ensures Honest(Insert(q.ps, t), len) && Honest(Accept(q, t).ps, len)
  {
    hide Sorted, Insert, Covers, Reach, Ready, MarkedAt, LosesFin, Accept;
    AcceptKeeps(q, t, len);
    forall x | MarkedAt(Insert(q.ps, t), x) ensures x == len { InsertMarks(q.ps, t, q.nxt, len, x); }
    AcceptMarks(q, t);
  }

  lemma {:induction false} AcceptMarks(q: Queue, t: Piece)
    ensures forall x :: MarkedAt(Accept(q, t).ps, x) ==> MarkedAt(Insert(q.ps, t), x)
  {
    var ps := Insert(q.ps, t);
    var c := Ready(ps, q.nxt);
    assert ps == ps[..c] + ps[c..];
    Join(ps[..c], ps[c..]);
  }

  // Byte x is the first that neither the queue nor t provides.
  ghost predicate FirstMissing(q: Queue, t: Piece, x: int) {
    0 <= x && !Got(q, x) && !Holds(t, x) && forall y :: 0 <= y < x ==> Got(q, y) || Holds(t, y)
  }

  // A FIN is reported before the end of the stream exactly when one is marked at the first byte
  // missing, before the end, and is not lost.
  lemma {:induction false} EarlyFinIff(q: Queue, t: Piece, len: nat)
    requires Settled(q, len) && Cut(t, len) && q.nxt <= t.o
    ensures Finished(q, t) && Accept(q, t).nxt < len <==>
            exists x :: x < len && FirstMissing(q, t, x) && (MarkedAt(q.ps, x) || Marks(t, x)) && !LosesFin(q.ps, t, x)
  {
    hide Sorted, Insert, Covers, Reach, Ready, MarkedAt, LosesFin, Accept, Finished, Settled;
    AcceptKeeps(q, t, len);
    var r := Accept(q, t);
    assert FirstMissing(q, t, r.nxt);
    forall x | FirstMissing(q, t, x) ensures x == r.nxt { assert Got(r, r.nxt) <==> Got(q, r.nxt) || Holds(t, r.nxt); }
  }

  // A stream of 20 bytes and a window of 10: the last segment, cut off at byte 10, keeps its FIN, and
  // the FIN is reported when the bytes before it have come in.
  lemma EarlyFinReported()
    ensures var cutOff, first, q := Piece(5, 5, true), Piece(0, 5, false), Queue(0, []);
      && Cut(cutOff, 20) && !Sent(cutOff, 20) && Sent(first, 20) && Accept(q, cutOff) == Queue(0, [cutOff])
      && !Finished(q, cutOff) && Finished(Queue(0, [cutOff]), first) && Accept(Queue(0, [cutOff]), first).nxt == 10
  {
    var cutOff, first := Piece(5, 5, true), Piece(0, 5, false);
    assert Insert([], cutOff) == [cutOff];
    assert Place([cutOff], 0, 0) == 0;
    var ps := Insert([cutOff], first);
    assert ps == [first, cutOff];
    assert ps[1..] == [cutOff] && [cutOff][1..] == [];
    assert Ready([cutOff], 5) == 1 && Ready(ps, 0) == 2;
    assert ps[..2] == ps;
  }

  // All of 5 .. 10 is queued without the FIN: the FIN is lost when it comes with bytes 7 .. 10.
  lemma FinDropped()
    ensures var queued, last := [Piece(5, 5, false)], Piece(7, 3, true);
      Sorted(queued, 0, 10) && Sent(last, 10) && LosesFin(queued, last, 10) && !MarkedAt(Insert(queued, last), 10)
  {
    var queued, last := [Piece(5, 5, false)], Piece(7, 3, true);
    assert queued[1..] == [];
    assert Place(queued, 7, 0) == 1;
  }

  // Bytes 7 .. 10 are queued with the FIN: it is lost when 5 .. 10 come without it.
  lemma FinCovered()
    ensures var queued, last := [Piece(7, 3, true)], Piece(5, 5, false);
      Sorted(queued, 0, 10) && Sent(last, 10) && LosesFin(queued, last, 10) && !MarkedAt(Insert(queued, last), 10)
  {
    var queued, last := [Piece(7, 3, true)], Piece(5, 5, false);
    assert queued[1..] == [];
    assert Place(queued, 5, 0) == 0;
    assert Insert(queued, last) == [last];
    assert [last][1..] == [];
  }
}
