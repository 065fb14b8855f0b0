// The receiving side of a connection: tcp_reass and the part of tcp_input that hands text to it.

module TcpReceivers {
  import opened TcpSeq
  import opened Pieces
  import opened TcpPieces

  // No window is larger than this (65535 << TCP_MAX_WINSHIFT).
  const MAX_WINDOW := 1073725440

  datatype Seg = Seg(seq_: nat, data: seq<nat>, fin: bool)

  datatype State = SynSent | SynReceived | Established | FinWait | FinSeen

  // The segment carries piece p of the stream whose first byte has the number isn.
  ghost predicate IsWire(s: Seg, p: Piece, isn: nat, stream: seq<nat>) {
    End(p) <= |stream| && s == Seg(Wrap(isn + p.o), stream[p.o..End(p)], p.fin)
  }

  ghost predicate Wires(q: seq<Seg>, ps: seq<Piece>, isn: nat, stream: seq<nat>) {
    |q| == |ps| && forall i :: 0 <= i < |q| ==> IsWire(q[i], ps[i], isn, stream)
  }

  // All within one window from lo, where sequence numbers compare like offsets.
  ghost predicate InWindow(ps: seq<Piece>, lo: nat) {
    forall i :: 0 <= i < |ps| ==> lo <= ps[i].o && End(ps[i]) <= lo + MAX_WINDOW
  }

  ghost predicate PieceInWindow(p: Piece, lo: nat) { lo <= p.o && End(p) <= lo + MAX_WINDOW }

  // i in the source: how far the first segment reaches into the second.
  function Overlap(s: Seg, t: Seg): int { SDiff(Wrap(s.seq_ + |s.data|), t.seq_) }

  function CutHead(s: Seg, i: nat): Seg
    requires i <= |s.data|
  {
    Seg(Wrap(s.seq_ + i), s.data[i..], s.fin)
  }

  lemma OverlapIs(s: Seg, t: Seg, p: Piece, q: Piece, lo: nat, isn: nat, stream: seq<nat>)
    requires IsWire(s, p, isn, stream) && IsWire(t, q, isn, stream) && PieceInWindow(p, lo) && PieceInWindow(q, lo)
    ensures Overlap(s, t) == End(p) - q.o && SeqGt(s.seq_, t.seq_) == (p.o > q.o)
  {
    WrapAdd(isn + p.o, p.n);
    DiffIs(isn, End(p), q.o);
    DiffIs(isn, p.o, q.o);
  }

  lemma CutHeadIs(s: Seg, p: Piece, i: nat, isn: nat, stream: seq<nat>)
    requires IsWire(s, p, isn, stream) && i <= p.n
    ensures IsWire(CutHead(s, i), TrimHead(p, i), isn, stream)
  {
    WrapAdd(isn + p.o, i);
  }

  // The queue and a segment on its way into it, all cut from one stream and within one window.
  ghost predicate Tame(q: seq<Seg>, ti: Seg, ps: seq<Piece>, t: Piece, lo: nat, isn: nat, stream: seq<nat>) {
    Wires(q, ps, isn, stream) && InWindow(ps, lo) && IsWire(ti, t, isn, stream) && PieceInWindow(t, lo)
  }

  lemma CutTailIs(s: Seg, p: Piece, i: nat, isn: nat, stream: seq<nat>)
    requires IsWire(s, p, isn, stream) && i <= p.n
    ensures IsWire(Seg(s.seq_, s.data[..|s.data| - i], s.fin), Piece(p.o, p.n - i, p.fin), isn, stream)
  {
  }

  // Find a segment which begins after this one does.
  method FindPlace(q: seq<Seg>, ti: Seg, ghost ps: seq<Piece>, ghost t: Piece, ghost lo: nat, ghost isn: nat,
                   ghost stream: seq<nat>) returns (k: nat)
    requires Tame(q, ti, ps, t, lo, isn, stream)
    ensures k <= |q| && k == Place(ps, t.o, 0)
  {
    k := 0;
    while k < |q| && !SeqGt(q[k].seq_, ti.seq_)
      invariant k <= |q| && Place(ps, t.o, 0) == Place(ps, t.o, k)
    {
      OverlapIs(q[k], ti, ps[k], t, lo, isn, stream);
      k := k + 1;
    }
    if k < |q| { OverlapIs(q[k], ti, ps[k], t, lo, isn, stream); }
  }

  // Trim or dequeue the segments from k on that t overlaps.
  method TrimFollowing(q: seq<Seg>, k: nat, ti: Seg, ghost b: seq<Piece>, ghost t: Piece, ghost lo: nat,
                       ghost isn: nat, ghost stream: seq<nat>) returns (r: seq<Seg>)
    requires k <= |q| && Tame(q[k..], ti, b, t, lo, isn, stream)
    ensures k <= |r| && r[..k] == q[..k] && Wires(r[k..], Eat(b, End(t)), isn, stream)
  {
    hide SDiff, Wrap, Overlap, CutHead;
    r := q;
    ghost var c := b;
    while k < |r|
      invariant k <= |r| && r[..k] == q[..k] && Wires(r[k..], c, isn, stream) && InWindow(c, lo)
      invariant Eat(c, End(t)) == Eat(b, End(t))
      decreases |r|
    {
      assert r[k..][0] == r[k];
      var i := Overlap(ti, r[k]);
      OverlapIs(ti, r[k], t, c[0], lo, isn, stream);
      if i <= 0 {
        break;
      }
      if i < |r[k].data| {
        CutHeadIs(r[k], c[0], i, isn, stream);
        c := [TrimHead(c[0], i)] + c[1..];
        r := r[k := CutHead(r[k], i)];
        return;
      }
      r := r[..k] + r[k + 1..];
      c := c[1..];
    }
  }

  // The first half of tcp_reass: what the queue becomes; false: the segment was dropped for what is
  // there already.
  method Enqueue(q: seq<Seg>, seg: Seg, ghost ps: seq<Piece>, ghost t: Piece, ghost lo: nat, ghost isn: nat,
                 ghost stream: seq<nat>) returns (kept: bool, r: seq<Seg>)
    requires Tame(q, seg, ps, t, lo, isn, stream)
    ensures (kept <==> !Swallowed(ps, t)) && Wires(r, Insert(ps, t), isn, stream) && (!kept ==> r == q)
  {
    hide Eat, Place, SDiff, Wrap;
    var ti := seg;
    r, kept := q, true;
    var k := FindPlace(q, ti, ps, t, lo, isn, stream);
    if k > 0 {
      var i := Overlap(q[k - 1], ti);
      OverlapIs(q[k - 1], ti, ps[k - 1], t, lo, isn, stream);
      if i > 0 {
        if i >= |ti.data| {
          kept := false;
          return;
        }
        CutHeadIs(ti, t, i, isn, stream);
        ti := CutHead(ti, i);
      }
    }
    ghost var t' := Rest(ps, t);
    assert Tame(q[k..], ti, ps[k..], t', lo, isn, stream);
    r := TrimFollowing(q, k, ti, ps[k..], t', lo, isn, stream);
    r := r[..k] + [ti] + r[k..];
    assert Insert(ps, t) == ps[..k] + [t'] + Eat(ps[k..], End(t));
  }

  // Afterwards the bytes of t below the edge of the window are there as well, and no others.
  ghost predicate Gained(q: Queue, r: Queue, t: Piece, edge: nat) {
    forall y :: 0 <= y ==> (Got(r, y) <==> Got(q, y) || (Holds(t, y) && y < edge))
  }

  class Receiver {
    var state: State
    var rcvNxt: nat              // rcv_nxt
    var rcvWnd: nat              // rcv_wnd
    var queue: seq<Seg>          // the list from seg_next
    var sock: seq<nat>           // what has been appended to so_rcv
    var cantRcvMore: bool        // SS_CANTRCVMORE
    ghost const isn: nat         // the number of the first byte of the peer's stream
    ghost const stream: seq<nat>
    ghost var nxt: nat           // how many bytes of the stream have been taken in
    ghost var pieces: seq<Piece> // the queue by offsets
    ghost var arrived: seq<Piece> // what of each segment was in the window when it came, the last first
    ghost var whole: bool        // nothing has been thrown away for want of a reader

    ghost predicate Tidy()
      reads this
    {
      && nxt <= |stream| && Sorted(pieces, nxt, |stream|) && InWindow(pieces, nxt) && Wires(queue, pieces, isn, stream)
      && rcvWnd <= MAX_WINDOW && rcvNxt == Wrap(isn + nxt + if state == FinSeen then 1 else 0)
    }

    predicate Handshake()
      reads `state
    {
      state == SynSent || state == SynReceived
    }

    // Before the handshake is complete text waits in the queue, but not a FIN with nothing before it.
    ghost predicate Early()
      reads this
    {
      state == SynSent || (state == SynReceived && nxt < |stream|)
    }

    // Between segments nothing that could be presented is waiting.
    ghost predicate Sound()
      reads this
    {
      Tidy() && (!Early() ==> pieces == [] || pieces[0].o > nxt)
    }

    // What has been taken in is what came within the window, and a FIN that was reported came there.
    // The user has been told of it, and of nothing else.
    ghost predicate Recorded()
      reads this
    {
      && Log(View(), arrived) && (state == FinSeen ==> MarkedAt(arrived, nxt) && cantRcvMore)
      && nxt <= |stream| && (whole ==> sock == stream[..nxt] && (cantRcvMore <==> state == FinSeen))
    }

    ghost predicate Valid()
      reads this
    {
      Sound() && Recorded()
    }

    constructor (s: State, irs: nat, wnd: nat, ghost isn: nat, ghost stream: seq<nat>)
      requires s != FinSeen && irs == Wrap(isn) && wnd <= MAX_WINDOW
      ensures Valid() && nxt == 0 && pieces == [] && queue == [] && sock == [] && !cantRcvMore && state == s
          && rcvWnd == wnd
      ensures this.isn == isn && this.stream == stream && arrived == [] && whole
    {
      state, rcvNxt, rcvWnd, queue, sock, cantRcvMore := s, irs, wnd, [], [], false;
      nxt, pieces, arrived, whole := 0, [], [], true;
      this.isn, this.stream := isn, stream;
    }

    predicate MayPresent()
      reads this
    {
      && state != SynSent && queue != [] && queue[0].seq_ == rcvNxt && !(state == SynReceived && queue[0].data != [])
    }

    // The numbers of the first segment and of rcv_nxt agree just when the offsets do.
    lemma FirstFits()
      requires Tidy() && state != FinSeen && queue != []
      ensures pieces[0].o >= nxt && (queue[0].seq_ == rcvNxt <==> pieces[0].o == nxt)
    {
      SortedAt(pieces, nxt, |stream|, 0);
      DiffIs(isn, pieces[0].o, nxt);
    }

    lemma SameLength()
      requires Tidy()
      ensures |pieces| == |queue|
    {
    }

    lemma SortedNow()
      requires Tidy()
      ensures Sorted(pieces, nxt, |stream|) && nxt <= |stream|
    {
    }

    // Takes the first segment off the queue.
    method PresentFirst() returns (fin: bool)
      requires Tidy() && state != FinSeen && queue != [] && pieces[0].o == nxt
      modifies this`rcvNxt, this`queue, this`sock, this`nxt, this`pieces
      ensures Tidy() && pieces == old(pieces[1..]) && nxt == End(old(pieces[0])) && fin == old(pieces[0].fin)
      ensures sock == old(sock) + (if cantRcvMore then [] else stream[old(nxt)..nxt]) && queue == old(queue[1..])
    {
      var ti := queue[0];
      SortedAt(pieces, nxt, |stream|, 0);
      WrapAdd(isn + nxt, pieces[0].n);
      LaterWindow(pieces, nxt, |stream|);
      nxt, pieces := End(pieces[0]), pieces[1..];
      rcvNxt := Wrap(rcvNxt + |ti.data|);
      fin := ti.fin;
      queue := queue[1..];
      if !cantRcvMore {
        sock := sock + ti.data;
      }
    }

    // The second half of tcp_reass: presents data to the user, advancing rcv_nxt through completed
    // sequence space.
    method Present() returns (fin: bool)
      requires Tidy() && state != FinSeen
      modifies this`rcvNxt, this`queue, this`sock, this`nxt, this`pieces
      ensures Tidy() && old(nxt) <= nxt
      ensures !old(MayPresent()) ==>
        !fin && rcvNxt == old(rcvNxt) && queue == old(queue) && sock == old(sock) && nxt == old(nxt)
            && pieces == old(pieces)
      ensures old(MayPresent()) ==>
        var c := Ready(old(pieces), old(nxt));
        && c > 0 && pieces == old(pieces)[c..] && nxt == Reach(old(pieces)[..c], old(nxt))
        && fin == old(pieces)[c - 1].fin && sock == old(sock) + if cantRcvMore then [] else stream[old(nxt)..nxt]
    {
      hide Sorted, Tidy, Wrap, Ready, Reach;
      if !MayPresent() {
        return false;
      }
      ghost var ps, n, c := pieces, nxt, 0;
      FirstFits();
      SameLength();
      SortedNow();
      RowStart(ps, n);
      fin := false;
      while queue != [] && queue[0].seq_ == rcvNxt
        invariant Tidy() && n <= nxt <= |stream| && c <= |ps| && pieces == ps[c..] && nxt == Reach(ps[..c], n)
        invariant Ready(ps, n) == c + Ready(pieces, nxt) && (c == 0 ==> queue != [] && pieces[0].o == nxt)
        invariant |pieces| == |queue| && (c > 0 ==> fin == ps[c - 1].fin)
        invariant sock == old(sock) + if cantRcvMore then [] else stream[n..nxt]
        decreases |queue|
      {
        FirstFits();
        RowStep(ps, n, c, nxt);
        fin := PresentFirst();
        c := c + 1;
        SameLength();
        SortedNow();
      }
      if queue != [] { FirstFits(); }
      RowEnd(pieces, nxt);
    }

    ghost function View(): Queue
      reads this
    {
      Queue(nxt, pieces)
    }

    // What comes in may go to the user.
    ghost predicate Synchronized()
      reads this
    {
      Sound() && !Early() && state != FinSeen
    }

    // The segment carries piece t of the stream, within the window.
    ghost predicate Fits(ti: Seg, t: Piece)
      reads `nxt
    {
      IsWire(ti, t, isn, stream) && Cut(t, |stream|) && PieceInWindow(t, nxt)
    }

    // The segment goes into its place in the queue, unless its bytes are there already.
    method Link(ti: Seg, ghost t: Piece) returns (kept: bool)
      requires Sound() && state != FinSeen && Fits(ti, t)
      modifies this`queue, this`pieces
      ensures Tidy() && pieces == Insert(old(pieces), t) && (!kept ==> pieces == old(pieces) && queue == old(queue))
    {
      hide Sorted, Insert, Covers, Wires, InWindow, Wrap, Swallowed, SDiff, IsWire, Cut;
      InsertTame(pieces, t, nxt, |stream|);
      kept, queue := Enqueue(queue, ti, pieces, t, nxt, isn, stream);
      pieces := Insert(pieces, t);
    }

    // tcp_reass
    method Reass(ti: Seg, ghost t: Piece) returns (fin: bool)
      requires Sound() && state != FinSeen && Fits(ti, t)
      modifies this`rcvNxt, this`queue, this`sock, this`nxt, this`pieces
      ensures Sound() && old(nxt) <= nxt && sock == old(sock) + if cantRcvMore then [] else stream[old(nxt)..nxt]
      ensures !old(Early()) ==> View() == Accept(old(View()), t) && fin == Finished(old(View()), t)
      ensures old(Early()) ==> !fin && nxt == old(nxt) && pieces == Insert(old(pieces), t)
    {
      hide Sorted, Insert, Covers, Ready, Wires, InWindow, Wrap, IsWire, Cut, Fits;
      var kept := Link(ti, t);
      SameLength();
      SortedNow();
      Stopped(pieces, nxt, |stream|);
      if queue != [] { FirstFits(); }
      if !kept {
        return false;
      }
      Stops(pieces, nxt, |stream|);
      if queue != [] { NotBare(); }
      fin := Present();
    }

    // Only the FIN behind the whole stream comes without text.
    lemma NotBare()
      requires Tidy() && state != FinSeen && queue != []
      ensures pieces[0].o == nxt ==> (queue[0].data == [] <==> nxt == |stream|)
    {
      SortedAt(pieces, nxt, |stream|, 0);
    }

    // The state becomes ESTABLISHED and tcp_reass without a segment passes queued text up.
    method PassUp()
      requires Sound() && state != FinSeen
      modifies this`state, this`rcvNxt, this`queue, this`sock, this`nxt, this`pieces
      ensures state == Established && Sound() && old(nxt) <= nxt
      ensures var c := Ready(old(pieces), old(nxt));
        View() == Queue(Reach(old(pieces)[..c], old(nxt)), old(pieces)[c..])
      ensures sock == old(sock) + if cantRcvMore then [] else stream[old(nxt)..nxt]
    {
      hide Sorted, Covers, Ready, Wires, InWindow;
      state := Established;
      SameLength();
      if queue != [] { FirstFits(); }
      Stopped(pieces, nxt, |stream|);
      Stops(pieces, nxt, |stream|);
      var _ := Present();
    }

    // The handshake is complete: queued text goes to the user, and the answer of tcp_reass, a FIN
    // among it, is ignored.  That loses exactly the FINs that are queued up to where presentation stops.
    method Establish()
      requires Valid() && Handshake()
      modifies this`state, this`rcvNxt, this`queue, this`sock, this`nxt, this`pieces
      ensures state == Established && Valid()
      ensures var c := Ready(old(pieces), old(nxt));
        View() == Queue(Reach(old(pieces)[..c], old(nxt)), old(pieces)[c..])
      ensures old(nxt) <= nxt && (!cantRcvMore ==> sock == old(sock) + stream[old(nxt)..nxt])
      ensures forall y :: MarkedAt(old(pieces), y) ==> if y > nxt then MarkedAt(pieces, y) else !MarkedAt(pieces, y)
    {
      hide Sorted, Covers, Ready, Wires, InWindow, MarkedAt, Log, Tidy, Reach;
      LogPresent(View(), arrived, |stream|) by { SortedNow(); }
      ghost var ps, n := pieces, nxt;
      SortedNow();
      PassUp();
      forall y | MarkedAt(ps, y) ensures if y > nxt then MarkedAt(pieces, y) else !MarkedAt(pieces, y) {
        ReadyMarks(ps, n, |stream|, y);
      }
      SortedNow();
    }

    predicate InOrder(ti: Seg)
      reads this
    {
      ti.seq_ == rcvNxt && queue == [] && state == Established
    }

    // TCP_REASS: the common case inline, the rest by tcp_reass.  The inline case appends to the
    // socket even when it can receive no more.
    method ReassInline(ti: Seg, ghost t: Piece) returns (fin: bool)
      requires Sound() && state != FinSeen && Fits(ti, t)
      modifies this`rcvNxt, this`queue, this`sock, this`nxt, this`pieces
      ensures Sound() && old(nxt) <= nxt
      ensures sock == old(sock) + if cantRcvMore && !old(InOrder(ti)) then [] else stream[old(nxt)..nxt]
      ensures !old(Early()) ==> View() == Accept(old(View()), t) && fin == Finished(old(View()), t)
      ensures old(Early()) ==> !fin && nxt == old(nxt) && pieces == Insert(old(pieces), t)
    {
      hide Sorted, Insert, Covers, Ready, Wires, InWindow, Swallowed, SDiff, Accept, Finished, Wrap;
      if InOrder(ti) {
        SDiffSame(rcvNxt);
        DiffIs(isn, t.o, nxt);
        WrapAdd(isn + nxt, t.n);
        assert pieces == [] by { SameLength(); }
        OneAlone(View(), t);
        Nothing(End(t), |stream|);
        nxt := End(t);
        rcvNxt := Wrap(rcvNxt + |ti.data|);
        fin := ti.fin;
        sock := sock + ti.data;
      } else {
        fin := Reass(ti, t);
      }
    }

    // What a cut of todrop bytes at the end, the part beyond the window, leaves.
    lemma CutToView(t: Piece, p: Piece, todrop: int)
      requires Sent(t, |stream|) && nxt <= |stream| && p.fin == t.fin && End(p) == End(t)
          && todrop == End(p) - (nxt + rcvWnd)
      requires if End(t) >= nxt then p == Clip(t, nxt) else p.n == 0
      ensures todrop > 0 && todrop <= p.n && (todrop < p.n || rcvWnd > 0) ==>
                && (Visible(t) <==> todrop < p.n)
                && (todrop < p.n ==> Clip(InView(t), nxt) == Piece(p.o, p.n - todrop, p.fin))
      ensures todrop > p.n || (todrop > 0 && rcvWnd == 0) ==> !Visible(t)
      ensures todrop <= 0 ==>
                (Visible(t) <==> p.n > 0 || (t.fin && End(t) >= nxt)) && (Visible(t) ==> Clip(InView(t), nxt) == p)
    {
    }

    lemma FitsNow(ti: Seg, t: Piece)
      requires Sent(t, |stream|) && Visible(t) && IsWire(ti, Clip(InView(t), nxt), isn, stream) && rcvWnd <= MAX_WINDOW
      ensures Fits(ti, Clip(InView(t), nxt))
    {
    }

    // What arrives is text of the peer's stream near rcv_nxt.  After the FIN nothing is asked of it.
    ghost predicate Text(seg: Seg, t: Piece)
      reads this
    {
      state != FinSeen ==> Synchronized() && IsWire(seg, t, isn, stream) && Sent(t, |stream|) && Near(t)
    }

    // The segment without what is old and what is beyond the window.  tiFin is the local copy of
    // the FIN flag; the flag in the segment itself stays as it was.
    method TrimToWindow(seg: Seg, ghost t: Piece) returns (drop: bool, ti: Seg, tiFin: bool)
      requires Text(seg, t)
      ensures state != FinSeen && !drop && (ti.data != [] || tiFin) ==> Visible(t) && Fits(ti, Clip(InView(t), nxt))
      ensures state != FinSeen && (drop || (ti.data == [] && !tiFin)) ==> !Visible(t)
    {
      hide Sorted, Wires, InWindow, SDiff, Wrap, Visible, InView, Fits, Cut;
      drop := false;
      ghost var p;
      ti, tiFin, p := TrimOld(seg, t);
      var todrop := SDiff(Wrap(ti.seq_ + |ti.data|), Wrap(rcvNxt + rcvWnd));
      if state != FinSeen {
        EndNumbers(ti, p);
        CutToView(t, p, todrop);
      }
      if todrop > 0 {
        if todrop >= |ti.data| && !(rcvWnd == 0 && ti.seq_ == rcvNxt) {
          drop := true;
          return;
        }
        var keep := if todrop > |ti.data| then 0 else |ti.data| - todrop;
        if state != FinSeen { CutTailIs(ti, p, |ti.data| - keep, isn, stream); }
        ti := Seg(ti.seq_, ti.data[..keep], ti.fin);
        tiFin := false;
      }
      if state != FinSeen && Visible(t) { FitsNow(ti, t); }
    }

    // Drops what lies before rcv_nxt; p is what is left.
    method TrimOld(seg: Seg, ghost t: Piece) returns (ti: Seg, tiFin: bool, ghost p: Piece)
      requires Text(seg, t)
      ensures state != FinSeen ==> IsWire(ti, p, isn, stream) && p.fin == t.fin && End(p) == End(t) && ti.fin == t.fin
      ensures state != FinSeen && End(t) >= nxt ==> p.o == (if t.o < nxt then nxt else t.o) && (tiFin <==> t.fin)
      ensures state != FinSeen && End(t) < nxt ==> p.n == 0 && !tiFin
    {
      hide Sorted, Wires, InWindow, SDiff, Wrap;
      ti, tiFin, p := seg, seg.fin, t;
      if state != FinSeen { TrimNumbers(seg, t); }
      var todrop := SDiff(rcvNxt, ti.seq_);
      if todrop > 0 {
        if todrop > |ti.data| || (todrop == |ti.data| && !tiFin) {
          tiFin := false;
          todrop := |ti.data|;
        }
        if state != FinSeen {
          CutHeadIs(ti, t, todrop, isn, stream);
          p := TrimHead(t, todrop);
        }
        ti := CutHead(ti, todrop);
      }
    }

    // The FIN of a segment whose last bytes lie beyond the window.
    ghost predicate FinTooFar(t: Piece)
      reads `nxt, `rcvWnd
    {
      t.fin && End(t) > nxt + rcvWnd
    }

    // What of a segment is in the window keeps a FIN that it does not reach.
    lemma InViewSent(t: Piece)
      requires Sent(t, |stream|) && Visible(t)
      ensures Cut(Clip(InView(t), nxt), |stream|) && (Sent(InView(t), |stream|) <==> !FinTooFar(t))
    {
    }

    // A segment with no byte beyond the window comes in whole, or brings nothing new.
    lemma Within(t: Piece)
      requires Sent(t, |stream|) && End(t) <= nxt + rcvWnd
      ensures if Visible(t) then InView(t) == t else Arrive(View(), t) == View()
    {
    }

    lemma Told()
      requires Valid()
      ensures state == FinSeen ==> cantRcvMore
    {
    }

    // The part in the window brings exactly the bytes in the window.
    lemma WindowBytes(t: Piece)
      requires Valid() && Synchronized() && Sent(t, |stream|)
      ensures Gained(View(), if Visible(t) then Arrive(View(), InView(t)) else View(), t, nxt + rcvWnd)
    {
      hide Sorted, Covers, Wires, InWindow, Accept, Finished, Log, MarkedAt, LosesFin;
      if Visible(t) {
        var v := InView(t);
        InViewSent(t);
        if !(End(v) < nxt || (End(v) == nxt && !v.fin)) {
          AcceptKeeps(View(), Clip(v, nxt), |stream|);
        }
      }
    }

    // Merges what is in the window into the queue, and takes in a FIN.
    method TakeIn(ti: Seg, ghost t: Piece)
      requires Valid() && state != FinSeen && Sent(t, |stream|) && Visible(t) && Fits(ti, Clip(InView(t), nxt))
      modifies `rcvNxt, `queue, `sock, `nxt, `pieces, `arrived, `cantRcvMore, `state
      ensures Valid() && arrived == [old(InView(t))] + old(arrived)
      ensures old(nxt) <= nxt && (!old(cantRcvMore) ==> sock == old(sock) + stream[old(nxt)..nxt])
      ensures cantRcvMore <==> old(cantRcvMore) || state == FinSeen
      ensures var p := Clip(old(InView(t)), old(nxt));
        if old(Early()) then
          View() == Queue(old(nxt), Insert(old(pieces), p)) && state == old(state)
        else
          View() == Accept(old(View()), p) && state == if Finished(old(View()), p) then FinSeen else old(state)
    {
      hide Sorted, Covers, Insert, Wires, InWindow, Accept, Finished, Wrap, Cut, MarkedAt, Log, Near, Fits;
      ghost var v := InView(t);
      ghost var p := Clip(v, nxt);
      InViewSent(t);
      SortedNow();
      LogAccept(View(), v, arrived, |stream|);
      LogInsert(View(), v, arrived, |stream|);
      var fin := ReassInline(ti, p);
      arrived := [v] + arrived;
      if fin {
        WrapAdd(isn + nxt, 1);
        cantRcvMore := true;
        rcvNxt := Wrap(rcvNxt + 1);
        state := FinSeen;
      }
    }

    // The text of a segment, as tcp_input handles it, up to the reception of a FIN.  Text that
    // comes after the FIN is ignored.
    method InputText(seg: Seg, ghost t: Piece)
      requires Valid() && Text(seg, t)
      modifies `rcvNxt, `queue, `sock, `nxt, `pieces, `arrived, `cantRcvMore, `state
      ensures Valid() && old(nxt) <= nxt && (!old(cantRcvMore) ==> sock == old(sock) + stream[old(nxt)..nxt])
      ensures old(state != FinSeen && Visible(t)) ==>
        && View() == Arrive(old(View()), old(InView(t))) && arrived == [old(InView(t))] + old(arrived)
        && state == (if Finished(old(View()), Clip(old(InView(t)), old(nxt))) then FinSeen else old(state))
      ensures old(state == FinSeen || !Visible(t)) ==>
        && View() == old(View()) && state == old(state) && arrived == old(arrived) && sock == old(sock)
        && rcvNxt == old(rcvNxt) && queue == old(queue) && cantRcvMore == old(cantRcvMore)
      ensures old(state != FinSeen && End(t) <= nxt + rcvWnd) ==> View() == Arrive(old(View()), t)
      ensures cantRcvMore <==> old(cantRcvMore) || state == FinSeen
      ensures old(state) != FinSeen ==> Gained(old(View()), View(), t, old(nxt + rcvWnd))
    {
      hide Sorted, Covers, Wires, InWindow, Accept, Finished, Wrap, Cut, MarkedAt, Log, Near, Fits, Tidy, Recorded,
           Gained;
      SortedNow();
      Told();
      if state != FinSeen {
        WindowBytes(t);
        if End(t) <= nxt + rcvWnd { Within(t); }
      }
      var drop, ti, tiFin := TrimToWindow(seg, t);
      if drop {
        return;
      }
      if (ti.data != [] || tiFin) && state != FinSeen {
        TakeIn(ti, t);
      }
    }

    // Drops the text of a SYN segment that is beyond the window.
    method TrimSyn(seg: Seg, ghost t: Piece) returns (ti: Seg, tiFin: bool)
      requires Tidy() && nxt == 0 && IsWire(seg, t, isn, stream) && Sent(t, |stream|) && t.o == 0
      ensures ti.data != [] || tiFin <==> Visible(t)
      ensures Visible(t) ==> Fits(ti, InView(t)) && Clip(InView(t), nxt) == InView(t)
    {
      hide Sorted, Wires, InWindow, Wrap;
      ti, tiFin := seg, seg.fin;
      if |ti.data| > rcvWnd {
        CutTailIs(ti, t, |ti.data| - rcvWnd, isn, stream);
        ti, tiFin := Seg(ti.seq_, ti.data[..rcvWnd], ti.fin), false;
      }
    }

    // The text of the SYN segment that acknowledges our SYN, from the first byte of the stream on.
    method InputSynAck(seg: Seg, ghost t: Piece)
      requires Valid() && state == SynSent && View() == Queue(0, [])
      requires IsWire(seg, t, isn, stream) && Sent(t, |stream|) && t.o == 0
      modifies `rcvNxt, `queue, `sock, `nxt, `pieces, `arrived, `cantRcvMore, `state
      ensures Valid() && (cantRcvMore <==> old(cantRcvMore) || state == FinSeen)
      ensures if old(Visible(t)) then
                var v := old(InView(t));
                && View() == Arrive(old(View()), v) && arrived == [v] + old(arrived)
                && state == if Finished(old(View()), v) then FinSeen else Established
              else
                View() == old(View()) && arrived == old(arrived) && state == Established
    {
      hide Sorted, Covers, Wires, InWindow, Accept, Finished, Wrap, Cut, MarkedAt, Log, Fits, Tidy, Insert, Ready,
          Reach, IsWire;
      var ti, tiFin := TrimSyn(seg, t);
      NothingReady();
      Establish();
      if ti.data != [] || tiFin {
        TakeIn(ti, t);
      }
    }

    // The text of a SYN segment that does not: it waits in the queue.  Only the FIN of a peer that sends
    // no text at all is taken in at once.
    method InputSyn(seg: Seg, ghost t: Piece)
      requires Valid() && state == SynSent && View() == Queue(0, [])
      requires IsWire(seg, t, isn, stream) && Sent(t, |stream|) && t.o == 0
      modifies `rcvNxt, `queue, `sock, `nxt, `pieces, `arrived, `cantRcvMore, `state
      ensures Valid() && (cantRcvMore <==> old(cantRcvMore) || state == FinSeen)
      ensures var vs := if old(Visible(t)) then [old(InView(t))] else [];
        View() == Queue(0, if |stream| == 0 then [] else vs) && arrived == vs + old(arrived)
      ensures state == if |stream| == 0 && t.fin then FinSeen else SynReceived
    {
      hide Sorted, Covers, Wires, InWindow, Wrap, Cut, MarkedAt, Log, Fits, Tidy, Insert, IsWire, Ready, Reach;
      var ti, tiFin := TrimSyn(seg, t);
      Received();
      if ti.data != [] || tiFin {
        InsertFirst(InView(t));
        OneAlone(View(), InView(t));
        TakeIn(ti, t);
      }
    }

    // A SYN that does not acknowledge ours.
    method Received()
      requires Valid() && state == SynSent && pieces == []
      modifies `state
      ensures Valid() && state == SynReceived
    {
      hide Sorted, Wires, InWindow, Log, Wrap;
      state := SynReceived;
    }

    lemma NothingReady()
      ensures Ready([], 0) == 0 && Reach([], 0) == 0
    {
    }

    lemma InsertFirst(v: Piece)
      ensures Insert([], v) == [v]
    {
    }

    // The window for the next segment.
    method SetWindow(window: nat)
      requires Valid() && window <= MAX_WINDOW
      modifies `rcvWnd
      ensures Valid() && rcvWnd == window
    {
      hide Sorted, Wires, InWindow, Log, Wrap;
      rcvWnd := window;
    }

    // The user reads no more.
    method ShutRead()
      requires Valid()
      modifies `cantRcvMore, `whole
      ensures Valid() && cantRcvMore
    {
      hide Sorted, Wires, InWindow, Log, Wrap;
      cantRcvMore, whole := true, false;
    }

    // On every run: byte nxt is the first that has not come within the window, the user gets the
    // stream up to it, and a FIN is reported early only if one came cut off by the window there.
    lemma Delivered()
      requires Valid() && !Early()
      ensures !Covers(arrived, nxt) && forall y :: 0 <= y < nxt ==> Covers(arrived, y)
      ensures whole ==> sock == stream[..nxt]
      ensures state == FinSeen ==> MarkedAt(arrived, nxt) && (Honest(arrived, |stream|) ==> nxt == |stream|)
    {
      Missing(View(), |stream|);
      forall y | 0 <= y < nxt ensures Covers(arrived, y) { assert Got(View(), y); }
    }

    // Close enough to rcv_nxt for the numbers to compare right.
    ghost predicate Near(t: Piece)
      reads `nxt
    {
      nxt - t.o < HALF - MAX_WINDOW && End(t) - nxt < HALF - MAX_WINDOW
    }

    // Some byte of t is new and in the window, or its FIN is.
    ghost predicate Visible(t: Piece)
      reads `nxt, `rcvWnd
    {
      (t.o < nxt + rcvWnd && End(t) > nxt && rcvWnd > 0) || (t.fin && nxt <= End(t) <= nxt + rcvWnd)
    }

    // The segment up to the edge of the window.
    ghost function InView(t: Piece): (p: Piece)
      requires Visible(t)
      reads `nxt, `rcvWnd
      ensures End(p) >= nxt
    {
      Piece(t.o, (if End(t) > nxt + rcvWnd then nxt + rcvWnd else End(t)) - t.o, t.fin)
    }

    lemma TrimNumbers(seg: Seg, t: Piece)
      requires Tidy() && state != FinSeen && IsWire(seg, t, isn, stream) && Near(t)
      ensures SDiff(rcvNxt, seg.seq_) == nxt - t.o
    {
      DiffIs(isn, nxt, t.o);
    }

    lemma EndNumbers(ti: Seg, p: Piece)
      requires Tidy() && state != FinSeen && IsWire(ti, p, isn, stream) && nxt - End(p) < HALF - MAX_WINDOW
          && End(p) - nxt < HALF - MAX_WINDOW
      ensures SDiff(Wrap(ti.seq_ + |ti.data|), Wrap(rcvNxt + rcvWnd)) == End(p) - (nxt + rcvWnd)
      ensures nxt - p.o < HALF && p.o - nxt < HALF ==> (ti.seq_ == rcvNxt <==> p.o == nxt)
    {
      hide Sorted, Wires, InWindow, SDiff, Wrap;
      WrapAdd(isn + p.o, p.n);
      WrapAdd(isn + nxt, rcvWnd);
      DiffIs(isn, End(p), nxt + rcvWnd);
      SDiffSame(rcvNxt);
      if nxt - p.o < HALF && p.o - nxt < HALF { DiffIs(isn, p.o, nxt); }
    }
  }

  // A stream of 20 bytes and a window of 10: the user is told of the end after half of it.
  method EarlyFin() returns (c: Receiver)
    ensures c.Valid() && c.state == FinSeen && c.nxt == 10 && |c.stream| == 20
  {
    hide Sorted, Wires, InWindow, Log, Accept, Finished, Insert, MarkedAt, Covers;
    var bytes: seq<nat> := seq(20, i => i);
    c := new Receiver(Established, 0, 10, 0, bytes);
    EarlyFinReported();
    ghost var last, first := Piece(5, 15, true), Piece(0, 5, false);
    c.InputText(Seg(5, bytes[5..], true), last);
    c.InputText(Seg(0, bytes[..5], false), first);
  }

  // All of the peer's stream and its FIN come on a SYN that does not acknowledge ours: the text reaches
  // the user when the handshake is complete, the FIN does not.
  method HandshakeFin() returns (c: Receiver)
    ensures c.Valid() && c.state == Established && c.nxt == 2 == |c.stream| && c.queue == [] && MarkedAt(c.arrived, 2)
  {
    hide Sorted, Wires, InWindow, Log, Insert, Covers;
    c := new Receiver(SynSent, 0, 10, 0, [1, 2]);
    ghost var all := Piece(0, 2, true);
    c.InputSyn(Seg(0, [1, 2], true), all);
    assert Ready([all], 0) == 1 && [all][..1] == [all];
    c.Establish();
    c.SameLength();
  }

  lemma SDiffSame(x: nat)
    ensures SDiff(x, x) == 0
  {
  }

  lemma Nothing(nxt: nat, len: nat)
    ensures Sorted([], nxt, len) && InWindow([], nxt)
  {
  }

  // A piece that fits at the head of an empty queue.
  lemma OneAlone(q: Queue, t: Piece)
    requires q.ps == [] && t.o == q.nxt
    ensures Accept(q, t) == Queue(End(t), []) && Finished(q, t) == t.fin
  {
    assert Insert(q.ps, t) == [t];
    assert [t][1..] == [];
    assert Ready([t], q.nxt) == 1 && [t][..1] == [t];
  }

  lemma InsertTame(ps: seq<Piece>, t: Piece, lo: nat, len: nat)
    requires Sorted(ps, lo, len) && InWindow(ps, lo) && Cut(t, len) && PieceInWindow(t, lo)
    ensures Sorted(Insert(ps, t), lo, len) && InWindow(Insert(ps, t), lo) && (Swallowed(ps, t) ==> Insert(ps, t) == ps)
  {
    InsertSorted(ps, t, lo, len);
    forall i | 0 <= i < |Insert(ps, t)| ensures PieceInWindow(Insert(ps, t)[i], lo) {
      InsertWithin(ps, t, lo, len, i);
    }
  }

  lemma Stopped(ps: seq<Piece>, nxt: nat, len: nat)
    requires Sorted(ps, nxt, len)
    ensures ps == [] || ps[0].o > nxt <==> Ready(ps, nxt) == 0
    ensures Ready(ps, nxt) == 0 ==> Reach(ps[..0], nxt) == nxt && ps[0..] == ps
  {
  }

  lemma Stops(ps: seq<Piece>, nxt: nat, len: nat)
    requires Sorted(ps, nxt, len)
    ensures var c := Ready(ps, nxt); c < |ps| ==> ps[c..][0].o > Reach(ps[..c], nxt)
  {
    ReadyIsGap(ps, nxt, len);
  }

  lemma LaterWindow(ps: seq<Piece>, nxt: nat, len: nat)
    requires ps != [] && Sorted(ps, nxt, len) && InWindow(ps, nxt)
    ensures InWindow(ps[1..], End(ps[0]))
  {
    forall i | 0 <= i < |ps[1..]| ensures End(ps[0]) <= ps[1..][i].o {
      SortedAt(ps[1..], End(ps[0]), len, i);
    }
  }

  lemma RowStart(ps: seq<Piece>, n: nat)
    ensures ps[0..] == ps && Reach(ps[..0], n) == n
  {
  }

  lemma RowEnd(ps: seq<Piece>, nxt: nat)
    ensures Ready(ps, nxt) == 0 <==> ps == [] || ps[0].o != nxt
  {
  }

  lemma RowStep(ps: seq<Piece>, n: nat, c: nat, nxt: nat)
    requires c < |ps| && nxt == Reach(ps[..c], n) && ps[c].o == nxt
    ensures Ready(ps[c..], nxt) == 1 + Ready(ps[c + 1..], End(ps[c])) && Reach(ps[..c + 1], n) == End(ps[c])
    ensures ps[c..][0] == ps[c] && ps[c..][1..] == ps[c + 1..]
  {
  }
}
