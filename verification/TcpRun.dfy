// A sender and a receiver with a network between them that loses, repeats, reorders and delays what both send.

module TcpRuns {
  import opened Pieces
  import opened TcpSeq
  import opened TcpPieces
  import opened TcpLinks
  import R = TcpReceivers
  import S = TcpSenders

  // What has come in is from the first sent bytes; a FIN only when all are written.
  ghost predicate FromSent(arrived: seq<Piece>, written: nat, all: bool) {
    (forall y :: Covers(arrived, y) ==> y < written) && (forall y :: MarkedAt(arrived, y) ==> all)
  }

  lemma SentMore(arrived: seq<Piece>, v: Piece, written: nat, all: bool)
    requires FromSent(arrived, written, all) && End(v) <= written && (v.fin ==> all)
    ensures FromSent([v] + arrived, written, all)
  {
    hide Covers, MarkedAt;
    ConsCovers(v, arrived);
    forall y | MarkedAt([v] + arrived, y) ensures all { ConsMarks(v, arrived, y); }
  }

  // Numbers sent as acknowledgements when gots of them, at most top, had been taken in.
  ghost predicate UpTo(acks: seq<nat>, gots: seq<nat>, isn: nat, top: nat) {
    |acks| == |gots| && forall j :: 0 <= j < |acks| ==> acks[j] == Wrap(isn + gots[j]) && gots[j] <= top
  }

  lemma UpToMore(acks: seq<nat>, gots: seq<nat>, isn: nat, top: nat, top': nat)
    requires UpTo(acks, gots, isn, top) && top <= top'
    ensures UpTo(acks, gots, isn, top')
  {
  }

  class Connection {
    const c: S.Sender
    const d: R.Receiver
    var net: seq<S.Seg>           // every segment that has been sent
    ghost var places: seq<nat>    // and where in the stream it begins
    var acks: seq<nat>            // every acknowledgement number that has been sent
    ghost var gots: seq<nat>      // and how much had been taken in, the FIN counted as one

    // d.stream is all that the user will have written when he closes.
    ghost predicate Planned()
      reads c`stream, c`state
    {
      && c.base == d.isn && c.stream <= d.stream
      && (S.SendsFin(c.state) || S.Ended(c.state) ==> c.stream == d.stream)
    }

    ghost predicate OnNet(s: S.Seg, o: nat)
      reads c`stream
    {
      s.data != [] || s.fin ==>
        && R.IsWire(OnWire(s), PieceAt(s, o), d.isn, d.stream) && Sent(PieceAt(s, o), |d.stream|)
        && o + |s.data| <= |c.stream| && (s.fin ==> c.stream == d.stream)
    }

    ghost predicate Network()
      reads `net, `places, c`stream
    {
      |net| == |places| && forall i :: 0 <= i < |net| ==> OnNet(net[i], places[i])
    }

    // How much of the stream has been taken in, the FIN counted as one.
    ghost function Got(): nat
      reads d`nxt, d`state
    {
      d.nxt + if d.state == R.FinSeen then 1 else 0
    }

    ghost predicate Answers()
      reads `acks, `gots, d`nxt, d`state
    {
      UpTo(acks, gots, d.isn, Got())
    }

    ghost predicate Valid()
      reads this, c, d
    {
      && c.Valid() && (c.state != S.Closed ==> !c.force) && d.Valid() && !d.Handshake()
      && Planned() && Network() && Answers() && FromSent(d.arrived, |c.stream|, c.stream == d.stream)
      && c.u <= Got()
    }

    // Both ends have just been set up.
    constructor (c: S.Sender, d: R.Receiver)
      requires c.Open() && c.state == S.Established && !c.force && c.stream == [] && c.u == 0 && c.base == d.isn
      requires d.Valid() && d.state == R.Established && d.nxt == 0 && d.arrived == []
      ensures Valid() && this.c == c && this.d == d && net == [] && acks == []
    {
      this.c, this.d, net, places, acks, gots := c, d, [], [], [], [];
    }

    // New segments on the network.
    method Transmit(out: seq<S.Seg>, ghost os: seq<nat>, ghost edge: int)
      requires Planned() && Network() && c.AllCarried(out, os, edge)
      modifies `net, `places
      ensures Network() && net == old(net) + out
    {
      hide R.IsWire, S.Sender.Carries, Sent;
      forall k | 0 <= k < |out| ensures OnNet(out[k], os[k]) {
        if out[k].data != [] || out[k].fin { OneCarried(out[k], os[k]); }
      }
      net, places := net + out, places + os;
    }

    lemma OneCarried(s: S.Seg, o: nat)
      requires Planned() && c.Carries(s, o) && (s.data != [] || s.fin)
      ensures OnNet(s, o)
    {
      Receivable(c, s, o, d.stream);
    }

    // The user writes.
    method Write(data: seq<nat>)
      requires Valid() && c.Open() && (c.state == S.Established || c.state == S.CloseWait)
      requires |c.snd| + |data| <= S.MAX_BUFFER && c.stream + data <= d.stream
      modifies c`snd, c`stream
      ensures Valid()
    {
      hide S.Sender.Numbers, S.Sender.Counts, S.Sender.Timers, S.Sender.Buffered, R.Receiver.Valid, R.IsWire, Sent,
           Covers, MarkedAt;
      c.Append(data);
    }

    // The user closes when all is written.
    method Close()
      requires Valid() && c.Open() && c.stream == d.stream
      modifies c`state
      ensures Valid()
    {
      hide S.Sender.Valid, R.Receiver.Valid, Network, Covers, MarkedAt;
      c.Close();
    }

    // The other direction ends.
    method PeerCloses()
      requires Valid() && c.Open()
      modifies c`state, c`rexmt, c`persist
      ensures Valid()
    {
      hide S.Sender.Valid, R.Receiver.Valid, Network, Covers, MarkedAt;
      c.PeerFin();
    }

    // The user at the far end reads no more.
    method ShutRead()
      requires Valid()
      modifies d`cantRcvMore, d`whole
      ensures Valid()
    {
      hide S.Sender.Valid, R.Receiver.Valid, Network, FromSent;
      d.ShutRead();
    }

    // tcp_output, for whatever reason it is called.
    method Send()
      requires Valid() && c.Open()
      modifies `net, `places, c
      ensures Valid() && old(net) <= net
    {
      hide S.Sender.Valid, R.Receiver.Valid, Network, FromSent, S.Sender.AllCarried;
      var out;
      ghost var os;
      ghost var edge := c.e;
      out, os := c.Emit();
      Transmit(out, os, edge);
    }

    // A tick of the timers.
    method Tick(maxPersistIdle: nat)
      requires Valid() && c.Open()
      modifies `net, `places, c
      ensures Valid() && old(net) <= net
    {
      hide S.Sender.Valid, R.Receiver.Valid, Network, FromSent, S.Sender.AllCarried;
      var out;
      ghost var os;
      ghost var edge := c.e;
      out, os := c.SlowTick(maxPersistIdle);
      if c.state == S.Closed {
        Gone();
      } else {
        Transmit(out, os, edge);
      }
    }

    // Nothing is asked of a connection that has been given up.
    lemma Gone()
      requires c.state == S.Closed
      ensures c.Valid()
    {
    }

    // What arrives is text of the stream, and has been written.
    lemma Arriving(i: nat)
      requires Valid() && i < |net| && d.Near(PieceAt(net[i], places[i])) && (net[i].data != [] || net[i].fin)
      ensures |places| == |net|
      ensures var t := PieceAt(net[i], places[i]);
        d.Text(OnWire(net[i]), t)
        && (d.Visible(t) ==> FromSent([d.InView(t)] + d.arrived, |c.stream|, c.stream == d.stream))
    {
      hide S.Sender.Valid, R.IsWire, Sent, FromSent, R.Receiver.Tidy, R.Receiver.Recorded, Answers;
      ghost var t := PieceAt(net[i], places[i]);
      assert OnNet(net[i], places[i]);
      if d.Visible(t) { SentMore(d.arrived, d.InView(t), |c.stream|, c.stream == d.stream); }
    }

    // Any segment sent so far reaches the far end, once more or for the first time.  It is not so old
    // that its number means something else.
    method DeliverSegment(i: nat)
      requires Valid() && i < |net| && d.Near(PieceAt(net[i], places[i]))
      modifies d`rcvNxt, d`queue, d`sock, d`nxt, d`pieces, d`arrived, d`cantRcvMore, d`state
      ensures Valid()
    {
      hide S.Sender.Valid, R.Receiver.Valid, R.Receiver.Text, R.Receiver.Visible, Arrive, Finished, Clip,
           FromSent, Network, UpTo, R.Receiver.Near;
      if net[i].data != [] || net[i].fin {
        Arriving(i);
        ghost var before := Got();
        d.InputText(OnWire(net[i]), PieceAt(net[i], places[i]));
        UpToMore(acks, gots, d.isn, before, Got());
      }
    }

    // The window of the far end.
    method SetWindow(window: nat)
      requires Valid() && window <= R.MAX_WINDOW
      modifies d`rcvWnd
      ensures Valid()
    {
      hide S.Sender.Valid, R.Receiver.Valid, Network, FromSent;
      d.SetWindow(window);
    }

    // The far end sends an acknowledgement.
    method Answer()
      requires Valid()
      modifies `acks, `gots
      ensures Valid() && acks == old(acks) + [d.rcvNxt]
    {
      hide S.Sender.Valid, R.Receiver.Recorded, Network, FromSent;
      acks, gots := acks + [d.rcvNxt], gots + [Got()];
    }

    // The sender reads an acknowledgement as what had been taken in when it was sent.
    lemma Reading(j: nat)
      requires Valid() && c.Open() && j < |acks| && c.u - HALF < gots[j]
      ensures acks[j] < M && SDiff(acks[j], c.una) == gots[j] - c.u && gots[j] <= Got()
    {
      hide Wrap, SDiff, Network, FromSent, R.Receiver.Valid;
      TakenIn();
      WithinBuffer();
      c.Compare(gots[j], c.u);
    }

    lemma WithinBuffer()
      requires c.Open()
      ensures c.Numbers() && |c.stream| <= c.u + |c.snd| <= c.u + S.MAX_BUFFER
    {
    }

    // Any acknowledgement sent so far comes in, once more or for the first time.
    method DeliverAck(j: nat, window: nat, bare: bool) returns (finAcked: bool)
      requires Valid() && c.Open() && j < |acks| && c.u - HALF < gots[j]
      modifies `net, `places, c
      ensures Valid() && old(net) <= net && (finAcked ==> c.u > |c.stream|)
    {
      hide S.Sender.Valid, R.Receiver.Valid, Network, FromSent, S.Sender.AllCarried;
      var out;
      ghost var os;
      ghost var edge := c.e;
      WithinBuffer();
      Reading(j);
      finAcked, out, os := c.Acknowledge(acks[j], window, bare);
      if c.state == S.Closed { Gone(); }
      Transmit(out, os, edge);
    }

    // The window of a segment from the far end.
    method TakeWindow(seq_: nat, ack: nat, window: nat)
      requires Valid() && c.Open()
      modifies c`wnd, c`maxWnd, c`sndWl1, c`sndWl2
      ensures Valid()
    {
      hide S.Sender.Valid, R.Receiver.Valid, Network, FromSent;
      c.UpdateWindow(seq_, ack, window);
    }

    // What has been taken in had been written, and the end is not seen before the user has closed.
    lemma TakenIn()
      requires Valid()
      ensures d.nxt <= |c.stream| && (d.state == R.FinSeen ==> c.stream == d.stream)
    {
      hide S.Sender.Valid, R.Receiver.Sound, Network, Answers, Covers, MarkedAt;
      d.Delivered();
      if d.nxt > 0 { assert Covers(d.arrived, d.nxt - 1); }
    }

    // On every run: the user at the far end gets the beginning of what was written here, and what the
    // sender has forgotten has been taken in.
    lemma Safe()
      requires Valid()
      ensures d.whole ==> d.sock <= d.stream && |d.sock| == d.nxt <= |c.stream|
      ensures c.u <= d.nxt || (d.state == R.FinSeen && c.u == d.nxt + 1)
    {
      TakenIn();
      d.Delivered();
    }

    // When our FIN has been acknowledged, the whole stream is there, however the network has behaved.
    lemma Complete()
      requires Valid() && (S.Ended(c.state) || c.u > |c.stream|)
      ensures d.state == R.FinSeen && d.nxt == |d.stream| && c.stream == d.stream && (d.whole ==> d.sock == d.stream)
    {
      TakenIn();
      d.Delivered();
    }
  }
}
