// The send window over many segments: snd_wl1 and snd_wl2 pick out the newest (section 3.9 of RFC 793).

module TcpWindows {
  import opened TcpSeq
  import opened TcpSenders

  // What a segment says: its own place, the one it acknowledges, and the window from there.
  datatype Info = Info(place: int, ack: int, win: nat)

  predicate Later(i: Info, j: Info) {
    i.place > j.place || (i.place == j.place && (i.ack > j.ack || (i.ack == j.ack && i.win > j.win)))
  }

  function Latest(first: Info, infos: seq<Info>): Info
    decreases |infos|
  {
    if infos == [] then first else Latest(if Later(infos[0], first) then infos[0] else first, infos[1..])
  }

  lemma {:induction false} LatestIs(first: Info, infos: seq<Info>)
    ensures Latest(first, infos) in [first] + infos
    ensures forall i :: i in [first] + infos ==> !Later(i, Latest(first, infos))
    decreases |infos|
  {
    if infos == [] {
    } else {
      var next := if Later(infos[0], first) then infos[0] else first;
      LatestIs(next, infos[1..]);
      assert !Later(next, Latest(first, infos));
      assert infos == [infos[0]] + infos[1..];
    }
  }

  // The order in which the segments come in does not matter, nor how often each does.
  lemma AnyOrder(first: Info, infos: seq<Info>, others: seq<Info>)
    requires forall i :: i in infos <==> i in others
    ensures Latest(first, infos) == Latest(first, others)
  {
    LatestIs(first, infos);
    LatestIs(first, others);
    var a, b := Latest(first, infos), Latest(first, others);
    assert a in [first] + others && b in [first] + infos;
    assert !Later(a, b) && !Later(b, a);
  }

  // Offsets less than half the space apart.
  predicate Near(i: Info, lo: Info) {
    lo.place <= i.place < lo.place + HALF && lo.ack <= i.ack < lo.ack + HALF
  }

  lemma WrapIs(b: int, j: int, k: int)
    requires -HALF < j - k < HALF
    ensures SeqLt(Wrap(b + j), Wrap(b + k)) <==> j < k
    ensures Wrap(b + j) == Wrap(b + k) <==> j == k
  {
    hide Wrap, SDiff;
    DiffIs(b, j, k);
    SDiffSame(Wrap(b + k));
  }

  lemma NewerIsLater(b: int, peer: int, f: Info, i: Info, lo: Info)
    requires Near(f, lo) && Near(i, lo)
    ensures Newer(Wrap(peer + f.place), Wrap(b + f.ack), f.win, Wrap(peer + i.place), Wrap(b + i.ack), i.win)
        <==> Later(i, f)
  {
    hide Wrap, SDiff, SeqLt;
    WrapIs(peer, f.place, i.place);
    WrapIs(b, f.ack, i.ack);
  }

  // s is what a header with the numbers and the window of f says.
  ghost predicate OnWire(c: Sender, f: Info, s: Info) {
    s == Info(Wrap(c.rcvBase + f.place), Wrap(c.base + f.ack), f.win)
  }

  // Whatever the order of the segments, the window in force afterwards is the newest one.
  method TakeWindows(c: Sender, segs: seq<Info>, ghost first: Info, ghost infos: seq<Info>, ghost lo: Info)
    requires c.Open() && OnWire(c, first, Info(c.sndWl1, c.sndWl2, c.wnd)) && Near(first, lo) && |segs| == |infos|
    requires forall k :: 0 <= k < |segs| ==> OnWire(c, infos[k], segs[k]) && Near(infos[k], lo)
    modifies c`wnd, c`maxWnd, c`sndWl1, c`sndWl2
    ensures c.Open() && OnWire(c, Latest(first, infos), Info(c.sndWl1, c.sndWl2, c.wnd))
  {
    hide Wrap, SDiff, Newer, Later, Sender.Valid;
    ghost var f := first;
    for k := 0 to |segs|
      invariant c.Open() && OnWire(c, f, Info(c.sndWl1, c.sndWl2, c.wnd)) && Near(f, lo)
      invariant Latest(f, infos[k..]) == Latest(first, infos)
    {
      NewerIsLater(c.base, c.rcvBase, f, infos[k], lo);
      c.UpdateWindow(segs[k].place, segs[k].ack, segs[k].win);
      f := if Later(infos[k], f) then infos[k] else f;
      assert infos[k..][0] == infos[k] && infos[k..][1..] == infos[k + 1..];
    }
  }
}
