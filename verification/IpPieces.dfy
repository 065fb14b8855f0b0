// The list of fragments of one datagram by offsets (section 3.2 of RFC 791): what ipReAssemble's
// insertion does to the bytes held, and when the datagram is complete.

module IpPieces {
  import opened Pieces

  // Cut from a datagram with total bytes of payload; fin (the flag MF is off) marks the last one.
  ghost predicate Fragment(p: Piece, total: nat) { End(p) <= total && (p.fin <==> End(p) == total) }

  ghost predicate Listed(gs: seq<Piece>, lo: nat, total: nat) {
    gs == [] || (lo <= gs[0].o && Fragment(gs[0], total) && Listed(gs[1..], End(gs[0]), total))
  }

  function TrimTail(p: Piece, i: nat): Piece
    requires i <= p.n
  {
    Piece(p.o, p.n - i, p.fin)
  }

  // The fragments that reach beyond e; all before the first of them are covered.
  function Beyond(gs: seq<Piece>, e: nat): seq<Piece> {
    if gs != [] && e >= End(gs[0]) then Beyond(gs[1..], e) else gs
  }

  // f in front of gs, all of which begin no earlier than f.
  function PutFirst(gs: seq<Piece>, f: Piece): seq<Piece>
    requires gs != [] ==> f.o <= gs[0].o
  {
    var rest := Beyond(gs, End(f));
    if rest != [] && End(f) > rest[0].o && rest[0].o >= f.o then [TrimTail(f, End(f) - rest[0].o)] + rest
    else [f] + rest
  }

  // g without what f provides.
  function CutBy(g: Piece, f: Piece): Piece {
    if f.o < End(g) && g.o <= f.o then TrimTail(g, End(g) - f.o) else g
  }

  // Some fragment in the list provides all of f's bytes and begins before it.
  predicate Dropped(gs: seq<Piece>, f: Piece) {
    gs != [] && f.o > gs[0].o && (if End(gs[0]) > f.o && End(gs[0]) >= End(f) then true else Dropped(gs[1..], f))
  }

  function Merge(gs: seq<Piece>, f: Piece): seq<Piece>
    requires gs != []
  {
    if f.o <= gs[0].o then PutFirst(gs, f)
    else if |gs| == 1 then [CutBy(gs[0], f), f]
    else [CutBy(gs[0], f)] + Merge(gs[1..], f)
  }

  function Insert(gs: seq<Piece>, f: Piece): seq<Piece>
    requires gs != []
  {
    if Dropped(gs, f) then gs else Merge(gs, f)
  }

  lemma {:induction false} ListedCovers(gs: seq<Piece>, lo: nat, total: nat, x: int)
    requires Listed(gs, lo, total) && Covers(gs, x)
    ensures lo <= x < total
  {
    if !Holds(gs[0], x) { ListedCovers(gs[1..], End(gs[0]), total, x); }
  }

  lemma ListedCons(p: Piece, gs: seq<Piece>, lo: nat, total: nat)
    ensures Listed([p] + gs, lo, total) <==> lo <= p.o && Fragment(p, total) && Listed(gs, End(p), total)
    ensures forall x :: Covers([p] + gs, x) <==> Holds(p, x) || Covers(gs, x)
  {
    assert ([p] + gs)[1..] == gs;
  }

  lemma {:induction false} BeyondKeeps(gs: seq<Piece>, lo: nat, e: nat, total: nat)
    requires Listed(gs, lo, total)
    ensures var r := Beyond(gs, e);
      && (r != [] ==> e < End(r[0]) && lo <= r[0].o) && Listed(r, lo, total)
      && (forall x :: Covers(r, x) ==> Covers(gs, x)) && (forall x :: Covers(gs, x) && !Covers(r, x) ==> lo <= x < e)
  {
    if gs != [] && e >= End(gs[0]) {
      BeyondKeeps(gs[1..], End(gs[0]), e, total);
      LowerBound(Beyond(gs[1..], e), End(gs[0]), lo, total);
    }
  }

  lemma LowerBound(gs: seq<Piece>, lo: nat, lo': nat, total: nat)
    requires Listed(gs, lo, total) && lo' <= lo
    ensures Listed(gs, lo', total)
  {
  }

  lemma {:induction false} PutFirstKeeps(gs: seq<Piece>, f: Piece, lo: nat, total: nat)
    requires Listed(gs, lo, total) && Fragment(f, total) && lo <= f.o && (gs != [] ==> f.o <= gs[0].o)
    ensures Listed(PutFirst(gs, f), lo, total)
    ensures forall x :: Covers(PutFirst(gs, f), x) <==> Covers(gs, x) || Holds(f, x)
  {
    hide Covers;
    var rest := Beyond(gs, End(f));
    LowestFirst(gs, f, lo, total);
    BeyondKeeps(gs, f.o, End(f), total);
    var f' := if rest != [] && End(f) > rest[0].o then TrimTail(f, End(f) - rest[0].o) else f;
    if rest != [] { FirstBelow(rest, f.o, total); }
    ListedCons(f', rest, lo, total);
  }

  lemma LowestFirst(gs: seq<Piece>, f: Piece, lo: nat, total: nat)
    requires Listed(gs, lo, total) && (gs != [] ==> f.o <= gs[0].o)
    ensures Listed(gs, f.o, total)
  {
  }

  lemma FirstBelow(gs: seq<Piece>, lo: nat, total: nat)
    requires Listed(gs, lo, total) && gs != []
    ensures Listed(gs, gs[0].o, total) && End(gs[0]) <= total
    ensures forall x :: gs[0].o <= x < End(gs[0]) ==> Covers(gs, x)
  {
  }

  lemma CutByKeeps(g: Piece, f: Piece, total: nat)
    requires Fragment(g, total) && Fragment(f, total) && g.o < f.o && !(End(g) > f.o && End(g) >= End(f))
    ensures Fragment(CutBy(g, f), total) && End(CutBy(g, f)) <= f.o && End(CutBy(g, f)) <= End(g)
        && CutBy(g, f).o == g.o
    ensures forall x :: Holds(CutBy(g, f), x) || Holds(f, x) <==> Holds(g, x) || Holds(f, x)
  {
  }

  lemma {:induction false} MergeKeeps(gs: seq<Piece>, f: Piece, lo: nat, total: nat)
    requires gs != [] && Listed(gs, lo, total) && Fragment(f, total) && lo <= f.o && !Dropped(gs, f)
    ensures Listed(Merge(gs, f), lo, total)
    ensures forall x :: Covers(Merge(gs, f), x) <==> Covers(gs, x) || Holds(f, x)
  {
    if f.o <= gs[0].o {
      PutFirstKeeps(gs, f, lo, total);
    } else {
      var g := CutBy(gs[0], f);
      CutByKeeps(gs[0], f, total);
      if |gs| == 1 {
        ListedCons(f, [], End(g), total);
        ListedCons(g, [f], lo, total);
        assert [f] + [] == [f] && [g] + [f] == [g, f];
      } else {
        LowerBound(gs[1..], End(gs[0]), End(g), total);
        MergeKeeps(gs[1..], f, End(g), total);
        ListedCons(g, Merge(gs[1..], f), lo, total);
      }
    }
  }

  lemma {:induction false} DroppedThere(gs: seq<Piece>, f: Piece, x: int)
    requires Dropped(gs, f) && Holds(f, x)
    ensures Covers(gs, x)
  {
    if !(End(gs[0]) > f.o && End(gs[0]) >= End(f)) { DroppedThere(gs[1..], f, x); }
  }

  // Insertion keeps the list sorted and disjoint and adds exactly the bytes of f.
  lemma {:induction false} InsertKeeps(gs: seq<Piece>, f: Piece, total: nat)
    requires gs != [] && Listed(gs, 0, total) && Fragment(f, total)
    ensures Listed(Insert(gs, f), 0, total)
    ensures forall x :: Covers(Insert(gs, f), x) <==> Covers(gs, x) || Holds(f, x)
  {
    if Dropped(gs, f) {
      forall x | Holds(f, x) ensures Covers(gs, x) { DroppedThere(gs, f, x); }
    } else {
      MergeKeeps(gs, f, 0, total);
    }
  }

  // ---- completeness ----------------------------------------------------------------------------------

  // The offset reached from len without a gap, if the list has none.
  function Run(gs: seq<Piece>, len: nat): (r: int) {
    if gs == [] then len else if gs[0].o != len then -1 else Run(gs[1..], End(gs[0]))
  }

  predicate Complete(gs: seq<Piece>) {
    gs != [] && Run(gs, 0) >= 0 && gs[|gs| - 1].fin
  }

  lemma {:induction false} RunCovers(gs: seq<Piece>, len: nat, total: nat)
    requires Listed(gs, len, total)
    ensures Run(gs, len) >= 0 ==> len <= Run(gs, len) && (gs != [] ==> Run(gs, len) == End(gs[|gs| - 1]) <= total)
                                  && forall x :: Covers(gs, x) <==> len <= x < Run(gs, len)
    ensures Run(gs, len) < 0 ==> exists x :: len <= x < total && !Covers(gs, x)
  {
    if gs != [] {
      if gs[0].o != len {
        if Covers(gs, len) { ListedCovers(gs, gs[0].o, total, len); }
        LastEnd(gs, len, total);
        assert !Covers(gs, len);
      } else {
        RunCovers(gs[1..], End(gs[0]), total);
        if Run(gs, len) < 0 {
          var x :| End(gs[0]) <= x < total && !Covers(gs[1..], x);
          assert !Covers(gs, x);
        }
      }
    }
  }

  lemma LastEnd(gs: seq<Piece>, lo: nat, total: nat)
    requires Listed(gs, lo, total) && gs != [] && gs[0].o > lo
    ensures lo < total
  {
  }

  lemma {:induction false} LastFin(gs: seq<Piece>, lo: nat, total: nat)
    requires Listed(gs, lo, total) && gs != []
    ensures gs[|gs| - 1].fin <==> End(gs[|gs| - 1]) == total
  {
    if |gs| > 1 { LastFin(gs[1..], End(gs[0]), total); }
  }

  // The fragments hold every byte of the datagram between them.
  ghost predicate AllThere(fs: seq<Piece>, total: nat) {
    forall x :: 0 <= x < total ==> Covers(fs, x)
  }

  // The check of ipReAssemble succeeds exactly when every byte of the datagram is there.
  lemma {:induction false} CompleteIff(gs: seq<Piece>, total: nat)
    requires Listed(gs, 0, total) && gs != []
    ensures Complete(gs) <==> AllThere(gs, total)
  {
    RunCovers(gs, 0, total);
    LastFin(gs, 0, total);
    var r := Run(gs, 0);
    if r < 0 {
      var x :| 0 <= x < total && !Covers(gs, x);
    } else if r < total {
      assert !Covers(gs, r);
    }
  }

  // ---- any number of fragments ----------------------------------------------------------------------

  function Add(gs: seq<Piece>, f: Piece): seq<Piece> {
    if gs == [] then [f] else Insert(gs, f)
  }

  function AddAll(gs: seq<Piece>, fs: seq<Piece>): seq<Piece>
    decreases |fs|
  {
    if fs == [] then gs else AddAll(Add(gs, fs[0]), fs[1..])
  }

  lemma {:induction false} AddAllSnoc(gs: seq<Piece>, fs: seq<Piece>, f: Piece)
    ensures AddAll(gs, fs + [f]) == Add(AddAll(gs, fs), f)
    decreases |fs|
  {
    if fs == [] {
      assert fs + [f] == [f] && [f][1..] == [];
    } else {
      assert (fs + [f])[1..] == fs[1..] + [f];
      AddAllSnoc(Add(gs, fs[0]), fs[1..], f);
    }
  }

  lemma InsertNonEmpty(gs: seq<Piece>, f: Piece)
    requires gs != []
    ensures Insert(gs, f) != []
  {
  }

  lemma {:induction false} AddAllKeeps(gs: seq<Piece>, fs: seq<Piece>, total: nat)
    requires Listed(gs, 0, total) && forall i :: 0 <= i < |fs| ==> Fragment(fs[i], total)
    ensures var r := AddAll(gs, fs);
      && Listed(r, 0, total) && (gs != [] || fs != [] ==> r != [])
      && forall x :: Covers(r, x) <==> Covers(gs, x) || Covers(fs, x)
    decreases |fs|
  {
    if fs != [] {
      var f := fs[0];
      if gs == [] {
        ListedCons(f, [], 0, total);
        assert [f] + [] == [f];
      } else {
        InsertKeeps(gs, f, total);
        InsertNonEmpty(gs, f);
      }
      AddAllKeeps(Add(gs, f), fs[1..], total);
    }
  }

  // Fragments in any order, with repeats and overlaps: the datagram is complete exactly when
  // together they hold all of its bytes.
  lemma {:induction false} CompleteWhenAllThere(fs: seq<Piece>, total: nat)
    requires fs != [] && forall i :: 0 <= i < |fs| ==> Fragment(fs[i], total)
    ensures Complete(AddAll([], fs)) <==> AllThere(fs, total)
  {
    hide Complete, Covers;
    AddAllKeeps([], fs, total);
    NothingCovered();
    var r := AddAll([], fs);
    CompleteIff(r, total);
    assert AllThere(r, total) <==> AllThere(fs, total);
  }

  lemma NothingCovered()
    ensures forall x :: !Covers([], x)
  {
  }
}
