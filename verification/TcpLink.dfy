// The two ends of a connection: what one end sends is what the other may expect, and what its
// acknowledgements let the sender forget has been taken in.

module TcpLinks {
  import opened Pieces
  import opened TcpSeq
  import opened TcpPieces
  import R = TcpReceivers
  import S = TcpSenders

  // The place of a segment in the stream.
  function PieceAt(s: S.Seg, o: nat): Piece { Piece(o, |s.data|, s.fin) }

  function OnWire(s: S.Seg): R.Seg { R.Seg(s.seq_, s.data, s.fin) }

  // full is all the user will have written in the end; once the FIN goes out that is what has been
  // written.  Every segment with text or a FIN is then what InputText at the far end requires.
  lemma Receivable(c: S.Sender, s: S.Seg, o: nat, full: seq<nat>)
    requires c.Carries(s, o) && (s.data != [] || s.fin) && c.stream <= full && (s.fin ==> c.stream == full)
    ensures R.IsWire(OnWire(s), PieceAt(s, o), c.base, full) && Sent(PieceAt(s, o), |full|)
  {
    assert c.stream[o..o + |s.data|] == full[o..o + |s.data|];
  }

  // The same for all segments of one call of tcp_output.
  lemma AllReceivable(c: S.Sender, out: seq<S.Seg>, os: seq<nat>, edge: int, full: seq<nat>)
    requires c.AllCarried(out, os, edge) && c.stream <= full
    requires forall k :: 0 <= k < |out| && out[k].fin ==> c.stream == full
    ensures forall k :: 0 <= k < |out| && (out[k].data != [] || out[k].fin) ==>
      R.IsWire(OnWire(out[k]), PieceAt(out[k], os[k]), c.base, full) && Sent(PieceAt(out[k], os[k]), |full|)
  {
    forall k | 0 <= k < |out| && (out[k].data != [] || out[k].fin)
      ensures R.IsWire(OnWire(out[k]), PieceAt(out[k], os[k]), c.base, full) && Sent(PieceAt(out[k], os[k]), |full|)
    {
      Receivable(c, out[k], os[k], full);
    }
  }

  // An acknowledgement sent when the far end had taken in got bytes, the FIN counted as one: the
  // sender reads it as got, so it drops from its buffer nothing that has not been taken in.
  lemma AckMeans(c: S.Sender, d: R.Receiver, got: nat)
    requires c.Open() && d.Tidy() && c.base == d.isn && got == d.nxt + (if d.state == R.FinSeen then 1 else 0)
    requires c.u - HALF < got <= |c.stream| + 1
    ensures SDiff(d.rcvNxt, c.una) == got - c.u && (SeqGt(d.rcvNxt, c.una) <==> got > c.u)
  {
    hide Wrap, SDiff;
    c.Compare(got, c.u);
  }

  // When the FIN was reported early, the acknowledgement covers a byte that has not been taken in.
  lemma EarlyAck(c: S.Sender, d: R.Receiver)
    requires c.Open() && d.Tidy() && c.base == d.isn && c.u <= d.nxt < |c.stream| && d.state == R.FinSeen
    ensures c.u + SDiff(d.rcvNxt, c.una) == d.nxt + 1
  {
    AckMeans(c, d, d.nxt + 1);
  }

  // One host: c and d are the two sides of its control block.  The window that tcp_input trims by holds
  // all that has been advertised, so a segment up to that edge comes in whole.
  method Promised(c: S.Sender, d: R.Receiver, seg: R.Seg, ghost t: Piece)
    requires c.Open() && d.Valid() && c.rcvBase == d.isn && c.r == d.nxt && c.rcvSpace <= R.MAX_WINDOW
    requires d.Text(seg, t) && d.state != R.FinSeen && End(t) <= c.e
    modifies d`rcvNxt, d`queue, d`sock, d`nxt, d`pieces, d`arrived, d`cantRcvMore, d`state, d`rcvWnd
    ensures d.Valid() && d.View() == Arrive(old(d.View()), t)
  {
    hide S.Sender.Numbers, S.Sender.Counts, S.Sender.Timers, S.Sender.Buffered, R.Receiver.Recorded, Arrive;
    S.BoundPow(c.rcvScale);
    var window := c.ReceiveWindow();
    d.SetWindow(window);
    d.InputText(seg, t);
  }
}
