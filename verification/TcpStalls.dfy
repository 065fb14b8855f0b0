// Runs of the sender for which the timers do not do what they are there for.

module TcpStalls {
  import opened TcpSeq
  import opened TcpRtt
  import opened TcpSenders

  // A fresh connection in which the user has written one byte.
  method Written(window: nat, advertised: nat) returns (c: Sender)
    requires advertised <= MAX_WIN
    ensures fresh(c) && c.Open() && c.snd == [7] && !c.force && !c.ackNow
    ensures c.wnd == window && c.cwnd == c.maxSeg == 100
    ensures c.u == c.n == c.x == c.r == 0 && c.e == advertised && c.rcvSpace == c.rcvHiwat == 1000 && c.rcvScale == 0
    ensures c.una == c.nxt == c.max == c.dupAcks == c.idle == c.rexmt == c.persist == 0
    ensures c.rxtCur == 12 && c.est == Rtt(0, 24) && c.sndWl1 == Wrap(-1)
  {
    hide Wrap, SDiff, Sender.Numbers, Sender.Buffered, Sender.Counts, Sender.Timers, Sender.Advertised, Sender.Running;
    c := new Sender(0, 0, window, 100, 0, 2, 0, 0, 1000, advertised, Rtt(0, 24), 12);
    c.Append([7]);
  }

  // An open receive window is news enough for a segment of its own.
  lemma UpdateIsDue(c: Sender)
    requires c.Open() && c.e == c.r && c.rcvSpace == 1000 && c.maxSeg == 100 && c.rcvScale == 0
    ensures c.UpdateDue()
  {
    assert Pow2(0) == 1;
    SDiffSame(c.rcvNxt);
  }

  // The user writes while the peer's window is closed and a window update is due.
  method LeftWithoutTimer() returns (c: Sender)
    ensures fresh(c) && c.Open() && c.snd == [7] && c.rexmt == c.persist == 0
  {
    hide Wrap, SDiff, Sender.Numbers, Sender.Buffered, Sender.Counts, Sender.Timers, Sender.Advertised, Sender.Running,
         Sender.AllCarried, Sender.UpdateDue, Sender.FromUna;
    c := Written(0, 0);
    UpdateIsDue(c);
    var out;
    ghost var os;
    out, os := c.Emit();
  }

  lemma NoUpdateDue(c: Sender)
    requires c.Open() && c.rcvSpace <= c.e - c.r && 0 < c.rcvHiwat
    ensures !c.UpdateDue()
  {
    hide Wrap, SDiff;
    BoundPow(c.rcvScale);
    DiffIs(c.rcvBase, c.e, c.r);
  }

  lemma MayGo(c: Sender)
    requires c.Open() && c.snd == [7] && c.wnd == c.cwnd == c.maxSeg == 100 && c.n == c.u && c.una == c.max
    ensures c.Pressing(c.Cwnd(), c.max == c.una) && !c.Stalls()
  {
  }

  // One byte is out.
  method InFlight() returns (c: Sender)
    ensures fresh(c) && c.Open() && c.snd == [7] && !c.force && !c.ackNow && c.u < c.n && c.rexmt > 0 && c.wnd == 100
    ensures c.una == c.dupAcks == c.idle == 0 && c.est == Rtt(0, 24) && c.sndWl1 == Wrap(-1)
    ensures c.rcvSpace == 1000 <= c.e - c.r && 0 < c.rcvHiwat
  {
    hide Wrap, SDiff, Sender.Numbers, Sender.Buffered, Sender.Counts, Sender.Timers, Sender.Advertised, Sender.Running,
         Sender.AllCarried, Sender.UpdateDue, Sender.Stalls, Sender.Pressing, Sender.Cwnd, Sender.Shut;
    c := Written(100, 1000);
    MayGo(c);
    var out;
    ghost var os;
    out, os := c.Emit();
  }

  // Then the peer closes its window.
  method ClosedInFlight() returns (c: Sender)
    ensures fresh(c) && c.Open() && c.snd == [7] && c.wnd == 0 && !c.force && !c.ackNow && !c.UpdateDue() && c.u < c.n
    ensures c.una == c.dupAcks == c.idle == 0 && c.rexmt > 0 && c.est == Rtt(0, 24)
  {
    hide Wrap, SDiff, Sender.Numbers, Sender.Buffered, Sender.Counts, Sender.Timers, Sender.Advertised, Sender.Running,
         Sender.AllCarried, Sender.UpdateDue, SeqLt;
    c := InFlight();
    Negative();
    c.UpdateWindow(0, 0, 0);
    NoUpdateDue(c);
  }

  lemma Negative()
    ensures SeqLt(Wrap(-1), 0)
  {
  }

  // Three duplicates bring the persist timer, and put snd_nxt back to where it was, ahead of snd_una.
  method Resent(c: Sender) returns (out: seq<Seg>, ghost os: seq<nat>)
    requires c.Open() && c.snd == [7] && c.wnd == 0 && !c.force && !c.ackNow && !c.UpdateDue() && c.u < c.n
    requires c.una == c.dupAcks == c.idle == 0 && c.rexmt > 0 && c.est == Rtt(0, 24)
    modifies c
    ensures c.Open() && c.snd == [7] && c.wnd == 0 && !c.force && c.u < c.n && c.rexmt == c.idle == 0 && c.persist > 0
    ensures c.est == Rtt(0, 24)
  {
    hide Wrap, SDiff, Sender.Numbers, Sender.Buffered, Sender.Counts, Sender.Timers, Sender.Advertised, Sender.Running,
         Sender.AllCarried, Sender.UpdateDue, Sender.FromUna;
    out, os := c.OldAck(0, 0, true);
    out, os := c.OldAck(0, 0, true);
    out, os := c.OldAck(0, 0, true);
  }

  // The persist timer goes off while snd_nxt is ahead of snd_una.
  method MissedProbe() returns (c: Sender, out: seq<Seg>, ghost os: seq<nat>)
    ensures fresh(c) && c.Open() && c.snd == [7] && c.wnd == 0 && !c.FromUna(out, os)
  {
    hide Wrap, SDiff, Sender.Numbers, Sender.Buffered, Sender.Counts, Sender.Timers, Sender.Advertised, Sender.Running,
         Sender.AllCarried, Sender.UpdateDue, Sender.FromUna;
    c := ClosedInFlight();
    out, os := Resent(c);
    var fired := false;
    while !fired
      invariant c.Open() && c.rexmt == 0 && !c.force && (if fired then c.persist == 0 else c.persist > 0)
      invariant c.snd == [7] && c.wnd == 0 && c.u < c.n && c.idle == 0 && c.est == Rtt(0, 24)
      decreases if fired then 0 else 1 + c.persist
    {
      fired := c.TickPersist();
    }
    out, os := c.PersistTimeout(100);
  }
}
