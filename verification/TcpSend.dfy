// The sending side of a connection once its SYN has been acknowledged: tcp_output, the handling of
// acknowledgements in tcp_input, and the retransmit and persist timers (sections 3.3 and 3.9 of RFC 793).

module TcpSenders {
  import opened TcpSeq
  import opened TcpRtt

  const MAX_BUFFER := 0x4000_0000   // no socket buffer is larger
  const REXMT_THRESH := 3           // tcprexmtthresh
  const MAX_WIN := 65535            // TCP_MAXWIN
  const TOT_BACKOFF := 511          // tcp_totbackoff

  datatype State = Established | CloseWait | FinWait1 | Closing | LastAck | FinWait2 | TimeWait | Closed

  // The states whose output flags have FIN.
  predicate SendsFin(s: State) { s == FinWait1 || s == Closing || s == LastAck }

  predicate Ended(s: State) { s == FinWait2 || s == TimeWait }

  // A segment as sent: off is where its data begin in the stream, win the window before scaling.
  datatype Seg = Seg(seq_: nat, data: seq<nat>, fin: bool, win: nat)

  function Min(x: int, y: int): (m: int)
    ensures m <= x && m <= y && (m == x || m == y)
  {
    if x < y then x else y
  }

  ghost predicate Sized(s: Seg, o: nat, full: nat, edge: nat) {
    |s.data| <= full && (s.data != [] ==> o + |s.data| <= edge)
  }

  ghost predicate Follows(s: Seg, o: nat, t: Seg, p: nat, full: nat) {
    |s.data| == full && !s.fin && (t.data != [] ==> p == o + full)
  }

  // All segments but the last carry full bytes; each begins where the one before it ends, and none goes
  // past edge.
  ghost predicate Packed(out: seq<Seg>, os: seq<nat>, full: nat, edge: nat) {
    && |out| == |os| && (forall k :: 0 <= k < |out| ==> Sized(out[k], os[k], full, edge))
    && (forall i, k :: 0 <= i < |out| && k == i + 1 && k < |out| ==> Follows(out[i], os[i], out[k], os[k], full))
  }

  // The next segment may begin at n.
  ghost predicate Chained(out: seq<Seg>, os: seq<nat>, full: nat, n: nat) {
    out != [] && |out| == |os| ==>
      |out[|out| - 1].data| == full && !out[|out| - 1].fin && os[|out| - 1] + full == n
  }

  // The last segment is a full one, or has no data.
  ghost predicate EndsFull(out: seq<Seg>, full: nat) {
    out == [] || out[|out| - 1].data == [] || |out[|out| - 1].data| == full
  }

  lemma PackedMore(out: seq<Seg>, os: seq<nat>, s: Seg, o: nat, full: nat, edge: nat, n: nat)
    requires Packed(out, os, full, edge) && Chained(out, os, full, n)
    requires Sized(s, o, full, edge) && (s.data != [] ==> o == n)
    ensures Packed(out + [s], os + [o], full, edge)
    ensures |s.data| == full && !s.fin ==> Chained(out + [s], os + [o], full, o + full)
    ensures |s.data| == full || s.data == [] ==> EndsFull(out + [s], full)
  {
    var q, qs := out + [s], os + [o];
    forall i, k | 0 <= i < |q| && k == i + 1 && k < |q| ensures Follows(q[i], qs[i], q[k], qs[k], full) {
      if k < |out| { assert Follows(out[i], os[i], out[k], os[k], full); }
    }
  }

  lemma PackedJoin(s: Seg, o: nat, more: seq<Seg>, moreOs: seq<nat>, full: nat, edge: nat)
    requires Packed([s], [o], full, edge) && |s.data| == full && !s.fin && Packed(more, moreOs, full, edge)
    requires FirstFrom(more, moreOs, o + full)
    ensures Packed([s] + more, [o] + moreOs, full, edge)
    ensures EndsFull(more, full) ==> EndsFull([s] + more, full)
  {
  }

  lemma NonePacked(full: nat, edge: nat, n: nat)
    ensures Packed([], [], full, edge) && Chained([], [], full, n) && EndsFull([], full)
    ensures !HasData([]) && FirstFrom([], [], n)
  {
  }

  predicate HasData(out: seq<Seg>) { out != [] && out[0].data != [] }

  // The first segment, if it has data, begins at the given offset.
  ghost predicate FirstFrom(out: seq<Seg>, os: seq<nat>, at: nat) {
    HasData(out) ==> os != [] && os[0] == at
  }

  lemma FirstStays(out: seq<Seg>, os: seq<nat>, s: Seg, o: nat, at: nat)
    requires FirstFrom(out, os, at) && |out| == |os| && (out == [] && s.data != [] ==> o == at)
    ensures FirstFrom(out + [s], os + [o], at)
  {
  }

  lemma OnePacked(s: Seg, o: nat, full: nat, edge: nat)
    requires |s.data| <= full && (s.data != [] ==> o + |s.data| <= edge)
    ensures Packed([s], [o], full, edge) && (|s.data| == full || s.data == [] ==> EndsFull([s], full))
  {
  }

  class Sender {
    var state: State
    var una: nat                 // snd_una, snd_nxt and snd_max
    var nxt: nat
    var max: nat
    var snd: seq<nat>            // so_snd
    var sentFin: bool            // TF_SENTFIN
    var ackNow: bool             // TF_ACKNOW
    var noDelay: bool            // TF_NODELAY
    var force: bool              // t_force
    var wnd: nat                 // snd_wnd, snd_cwnd, snd_ssthresh and max_sndwnd
    var cwnd: nat
    var ssthresh: nat
    var maxWnd: nat
    var sndWl1: nat              // snd_wl1 and snd_wl2
    var sndWl2: nat
    var dupAcks: nat
    var rexmt: nat               // t_timer[TCPT_REXMT] and t_timer[TCPT_PERSIST]
    var persist: nat
    var rxtShift: nat
    var rxtCur: nat
    var est: Rtt
    var rtt: nat                 // t_rtt and t_rtseq
    var rtSeq: nat
    var idle: nat                // t_idle
    var rcvNxt: nat              // rcv_nxt and rcv_adv
    var rcvAdv: nat
    var rcvSpace: int            // sbspace(&so->so_rcv)
    const maxSeg: nat
    const optLen: nat
    const rttMin: nat
    const sndScale: nat
    const rcvScale: nat
    const rcvHiwat: nat
    ghost const base: nat        // the number of the first byte of the stream
    ghost var stream: seq<nat>   // all the user has written
    ghost var u: nat             // una, nxt and max as offsets in the stream; the FIN counts for one
    ghost var n: nat
    ghost var x: nat
    ghost const rcvBase: nat     // the number of the first byte of the peer's stream
    ghost var r: nat
    ghost var e: int

    ghost predicate Numbers()
      reads `una, `nxt, `max, `snd, `u, `n, `x
    {
      && una == Wrap(base + u) && nxt == Wrap(base + n) && max == Wrap(base + x)
      && u <= n <= x && |snd| <= MAX_BUFFER
    }

    // The buffer holds what the user has written and the peer has not acknowledged.
    ghost predicate Buffered()
      reads `state, `snd, `stream, `u
    {
      if Ended(state) then snd == [] && u == |stream| + 1 else u + |snd| == |stream| && snd == stream[u..]
    }

    // What is sent and not acknowledged is in the buffer, but for the FIN.
    ghost predicate Counts()
      reads `state, `sentFin, `snd, `u, `x
    {
      && (Ended(state) ==> sentFin && snd == [] && u == x)
      && (!sentFin ==> x <= u + |snd|)
      && (sentFin && !Ended(state) ==> SendsFin(state) && x == u + |snd| + 1)
    }

    ghost predicate Timers()
      reads `rexmt, `persist, `rxtShift, `rxtCur
    {
      && (rexmt == 0 || persist == 0) && rxtShift <= MAX_RXTSHIFT && 1 <= rttMin <= rxtCur <= REXMT_MAX
      && optLen < maxSeg
    }

    // The retransmit timer runs only while something is outstanding.
    ghost predicate Running()
      reads `rexmt, `u, `x
    {
      rexmt > 0 ==> u < x
    }

    // The window advertised reaches to byte e of what the peer sends, of which r have been taken in.
    ghost predicate Advertised()
      reads `rcvNxt, `rcvAdv, `r, `e
    {
      && rcvNxt == Wrap(rcvBase + r) && rcvAdv == Wrap(rcvBase + e)
      && rcvScale <= 14 && -MAX_BUFFER <= e - r <= MAX_WIN * Pow2(rcvScale)
    }

    ghost predicate Sound()
      reads this
    {
      Numbers() && Buffered() && Counts() && Timers() && Advertised()
    }

    // What every step keeps until the connection is gone.
    ghost predicate Valid()
      reads this
    {
      state != Closed ==> Sound() && Running()
    }

    ghost predicate Open()
      reads this
    {
      Valid() && state != Closed
    }

    // The end of what the user has written.
    ghost function End(): int
      reads this
    {
      u + |snd|
    }

    // Sequence numbers compare like the offsets they stand for.
    lemma Compare(a: int, b: int)
      requires Numbers() && -HALF <= a - b < HALF
      ensures SDiff(Wrap(base + a), Wrap(base + b)) == a - b
    {
      DiffIs(base, a, b);
    }

    lemma Offsets()
      requires Numbers() && Counts()
      ensures SDiff(nxt, una) == n - u && SDiff(nxt, max) == n - x && SDiff(una, max) == u - x
      ensures (nxt == max <==> n == x) && (nxt == una <==> n == u) && (max == una <==> x == u)
    {
      hide Wrap, SDiff, Buffered;
      Compare(n, u);
      Compare(n, x);
      Compare(u, x);
      SDiffSame(nxt);
      SDiffSame(una);
    }

    // The end of len more bytes, against the end of the buffer and snd_max.
    lemma Ends(len: nat)
      requires Numbers() && Counts() && len <= MAX_BUFFER
      ensures Wrap(nxt + len) == Wrap(base + (n + len)) && Wrap(una + |snd|) == Wrap(base + (u + |snd|))
      ensures SDiff(Wrap(nxt + len), Wrap(una + |snd|)) == n + len - End() && SDiff(Wrap(nxt + len), max) == n + len - x
    {
      hide Wrap, SDiff, Buffered;
      WrapAdd(base + n, len);
      WrapAdd(base + u, |snd|);
      Compare(n + len, u + |snd|);
      Compare(n + len, x);
    }

    // ---- tcp_output --------------------------------------------------------------------------------------

    // What may go into the next segment: bytes of the buffer from snd_nxt on, and the FIN only
    // behind the last of them.
    ghost predicate MaySend(len: nat, fin: bool)
      reads `snd, `state, `sentFin, `u, `n, `x
    {
      && (len > 0 ==> n + len <= u + |snd|)
      && (fin ==> SendsFin(state) && (n + len == u + |snd| || (len == 0 && sentFin && n == x)))
    }

    // After "a while" with nothing outstanding, the congestion window starts over.
    function Cwnd(): nat
      reads `max, `una, `idle, `rxtCur, `cwnd
    {
      if max == una && idle >= rxtCur then maxSeg else cwnd
    }

    // Nothing may be sent into the window, given the congestion window.
    predicate Shut(cw: nat)
      reads `wnd, `force
    {
      !force && Min(wnd, cw) == 0
    }

    // A larger window is worth a segment of its own.
    predicate UpdateDue()
      reads `rcvSpace, `rcvAdv, `rcvNxt
    {
      rcvSpace > 0 &&
      var adv := Min(rcvSpace, MAX_WIN * Pow2(rcvScale)) - SDiff(rcvAdv, rcvNxt);
      adv >= 2 * maxSeg || 2 * adv >= rcvHiwat
    }

    // The window to send into; a probe of a closed one takes a byte.
    function Usable(cw: nat): nat
      reads `wnd, `force
    {
      if force && Min(wnd, cw) == 0 then 1 else Min(wnd, cw)
    }

    predicate Probing(cw: nat)
      reads `wnd, `force
    {
      force && Min(wnd, cw) == 0
    }

    // How many of the bytes behind the first k of the buffer fit into the window.
    function Unsent(k: int, cw: nat): int
      reads `snd, `wnd, `force
    {
      Min(|snd|, Usable(cw)) - k
    }

    // Data are worth a segment: a full one, all there is, a probe, half the largest window there was, or
    // something that is sent again.
    ghost predicate DataDue(k: int, cw: nat, wasIdle: bool)
      reads `snd, `wnd, `force, `noDelay, `maxWnd, `u, `x
    {
      var left := Unsent(k, cw);
      left > 0
      && (left >= maxSeg || ((wasIdle || noDelay) && |snd| <= Usable(cw)) || force || left >= maxWnd / 2 || u + k < x)
    }

    // So is the FIN that has not been sent, or is to be sent again.
    ghost predicate FinDue(k: int, cw: nat)
      reads `state, `snd, `wnd, `force, `sentFin
    {
      && SendsFin(state) && !(Probing(cw) && k < |snd|)
      && if Unsent(k, cw) < 0 && Usable(cw) == 0 then snd == []
         else k + Max(Unsent(k, cw), 0) >= |snd| && (!sentFin || k == 0)
    }

    // What the peer does not know of the receive window is less than two segments and less than half of it.
    ghost predicate WindowKnown()
      reads `rcvSpace, `r, `e
    {
      rcvSpace > 0 ==>
        var adv := Min(rcvSpace, MAX_WIN * Pow2(rcvScale)) - (e - r);
        adv < 2 * maxSeg && 2 * adv < rcvHiwat
    }

    // tcp_output has a reason to send a segment when snd_nxt is k beyond snd_una.
    ghost predicate Due(k: int, cw: nat, wasIdle: bool)
      reads `state, `snd, `wnd, `force, `sentFin, `noDelay, `maxWnd, `u, `x, `rcvSpace, `r, `e, `ackNow
    {
      DataDue(k, cw, wasIdle) || FinDue(k, cw) || ackNow || !WindowKnown()
    }

    // Where snd_nxt is afterwards: back at snd_una if it was beyond a window that has closed.
    ghost function PulledTo(k: int, cw: nat): int
      reads `u, `snd, `wnd, `force
    {
      if ClosedOn(k, cw) then u else u + k
    }

    // A FIN goes with what ends at end.
    ghost predicate FinGoes(k: int, end: int, cw: nat)
      reads `state, `u, `snd, `wnd, `force
    {
      SendsFin(state) && !(Probing(cw) && k < |snd|) && end >= u + |snd|
    }

    // The window has closed in front of snd_nxt.
    ghost predicate ClosedOn(k: int, cw: nat)
      reads `snd, `wnd, `force
    {
      Unsent(k, cw) < 0 && Usable(cw) == 0
    }

    // The data that are left do not call for a segment, the FIN is out behind the last of them, and the
    // peer knows the receive window well enough.
    ghost predicate Resting(wasIdle: bool)
      reads `state, `snd, `wnd, `cwnd, `force, `sentFin, `noDelay, `maxWnd, `u, `n, `x, `rcvSpace, `r, `e
    {
      && (Probing(cwnd)
          || (!DataDue(n - u, cwnd, wasIdle) && (SendsFin(state) && n >= u + |snd| ==> sentFin)))
      && (r <= e && rcvHiwat > 0 ==> WindowKnown())
    }

    lemma KnownIs()
      requires Open()
      ensures UpdateDue() <==> !WindowKnown()
    {
      hide Wrap, SDiff, Numbers, Counts, Timers, Buffered, Running;
      BoundPow(rcvScale);
      DiffIs(rcvBase, e, r);
    }

    // The reasons by sequence numbers are the reasons by offsets.
    lemma WantedIs(k: int, len: nat, fin: bool, wasIdle: bool)
      requires Open() && 0 <= k && n == PulledTo(k, cwnd) && len == Min(Max(Unsent(k, cwnd), 0), maxSeg)
      requires fin <==> FinGoes(k, n + len, cwnd)
      ensures Wanted(len, k, fin, wasIdle) <==> Due(k, cwnd, wasIdle)
    {
      hide Wrap, SDiff, Advertised, Buffered, Running, UpdateDue, WindowKnown;
      Offsets();
      KnownIs();
    }

    lemma NothingDue(k: int, wasIdle: bool)
      requires Open() && 0 <= k && n == PulledTo(k, cwnd) && !Due(k, cwnd, wasIdle)
      ensures Resting(wasIdle)
    {
      hide Wrap, SDiff, Advertised, Timers, Buffered, Running, WindowKnown;
    }

    // The usable window; a persist probe gets a window of one byte, and the FIN only when there
    // is nothing else to send.
    method Window(off: int) returns (win: nat, fin: bool)
      requires Open()
      modifies `persist, `rxtShift
      ensures Open() && persist <= old(persist) && (!(force && Min(wnd, cwnd) > 0) ==> persist == old(persist))
      ensures force && persist > 0 ==> win == 1 && Probing(cwnd)
      ensures win == if force && Min(wnd, cwnd) == 0 then 1 else Min(wnd, cwnd)
      ensures fin <==> SendsFin(state) && !(force && Min(wnd, cwnd) == 0 && off < |snd|)
    {
      hide Numbers, Counts, Advertised, Buffered, Running;
      win, fin := Min(wnd, cwnd), SendsFin(state);
      if force {
        if win == 0 {
          if off < |snd| {
            fin := false;
          }
          win := 1;
        } else {
          persist, rxtShift := 0, 0;
        }
      }
    }

    // The length; when the window has closed, snd_nxt goes back to its edge.
    method Length(off: int, win: nat) returns (len: nat)
      requires Open() && off == n - u
      modifies `nxt, `n, `rexmt
      ensures Open() && len == Max(Min(|snd|, win) - off, 0) && len <= MAX_BUFFER
      ensures if Min(|snd|, win) < off && win == 0 then n == u && rexmt == 0 else n == old(n) && rexmt == old(rexmt)
    {
      hide Counts, Advertised, Wrap, Buffered;
      var l := Min(|snd|, win) - off;
      if l < 0 {
        l := 0;
        if win == 0 {
          rexmt, nxt, n := 0, una, u;
        }
      }
      len := l;
    }

    method Amount() returns (len: nat, off: int, fin: bool, sendalot: bool)
      requires Open()
      modifies `nxt, `n, `rexmt, `persist, `rxtShift
      ensures Open() && MaySend(len, fin) && off == old(n) - u && n == PulledTo(off, cwnd)
      ensures len == Min(Max(Unsent(off, cwnd), 0), maxSeg) && (sendalot <==> Unsent(off, cwnd) > maxSeg)
      ensures (fin <==> FinGoes(off, n + len, cwnd)) && (sendalot ==> !fin)
      ensures rexmt == if ClosedOn(off, cwnd) then 0 else old(rexmt)
      ensures persist <= old(persist) && (Shut(cwnd) ==> persist == old(persist))
      ensures force && persist > 0 ==> Probing(cwnd)
    {
      hide Advertised, Wrap, SDiff, Buffered, Running;
      Offsets();
      off := SDiff(nxt, una);
      var win;
      win, fin := Window(off);
      len := Length(off, win);
      sendalot := len > maxSeg;
      if len > maxSeg {
        len := maxSeg;
      }
      Ends(len);
      if SeqLt(Wrap(nxt + len), Wrap(una + |snd|)) {
        fin := false;
      }
    }

    // Whether there is a reason to send a segment with len bytes and perhaps a FIN.
    predicate Wanted(len: nat, off: int, fin: bool, wasIdle: bool)
      reads this
    {
      || (len > 0
          && (len == maxSeg || ((wasIdle || noDelay) && len + off >= |snd|) || force || len >= maxWnd / 2
              || SeqLt(nxt, max)))
      || UpdateDue()
      || ackNow
      || (fin && (!sentFin || nxt == una))
    }

    // tcp_setpersist; its panic is for a retransmit timer that is set.
    method SetPersist()
      requires rexmt == 0 && rxtShift <= MAX_RXTSHIFT
      modifies `persist, `rxtShift
      ensures persist == PersistInterval(est, old(rxtShift)) && rxtShift == Min(old(rxtShift) + 1, MAX_RXTSHIFT)
    {
      if rexmt > 0 {
        assert false;  // tcp_output REXMT
      }
      var t := (est.srtt / 4 + est.rttvar) / 2;
      persist := RangeSet(t * BACKOFF[rxtShift], PERS_MIN, PERS_MAX);
      if rxtShift < MAX_RXTSHIFT {
        rxtShift := rxtShift + 1;
      }
    }

    // There is something at snd_una to be sent now, or to be sent again.
    ghost predicate Pressing(cw: nat, wasIdle: bool)
      reads `n, `u, `x, `snd, `wnd, `force
    {
      && n == u
      && if snd == [] then u < x
         else !Shut(cw) && (u < x || force || (wasIdle && Min(wnd, cw) >= Min(|snd|, maxSeg)))
    }

    lemma StillFin()
      requires Open() && snd == [] && u < x
      ensures SendsFin(state) && sentFin && x == u + 1
    {
    }

    // With the window closed only news of our own is due.
    lemma DueWhenShut(k: int, cw: nat, wasIdle: bool)
      requires Open() && 0 <= k && snd != [] && Shut(cw)
      ensures (Due(k, cw, wasIdle) <==> ackNow || UpdateDue()) && Unsent(k, cw) <= 0 && PulledTo(k, cw) == u
      ensures !FinGoes(k, u, cw)
      ensures ClosedOn(k, cw) <==> k > 0
    {
      hide Advertised, Timers, Counts, Numbers, Buffered, UpdateDue, WindowKnown;
      KnownIs();
    }

    lemma DueWhenOpen(k: int, cw: nat)
      requires Open() && 0 <= k && !Shut(cw)
      ensures PulledTo(k, cw) == u + k && !ClosedOn(k, cw) && (snd != [] && Unsent(k, cw) <= 0 ==> k != 0)
    {
    }

    // What is pressing is due, and is what is chosen.
    lemma DueWhenPressing(cw: nat, wasIdle: bool)
      requires Open() && Pressing(cw, wasIdle)
      ensures Due(0, cw, wasIdle) && PulledTo(0, cw) == u
      ensures if snd == [] then Unsent(0, cw) == 0 && FinGoes(0, u, cw) else Unsent(0, cw) > 0
    {
      hide Advertised, Timers, Numbers, Buffered, WindowKnown;
      if snd == [] { StillFin(); }
    }

    // The first part of tcp_output: how much to send, and whether to.
    method Decide(wasIdle: bool) returns (send: bool, len: nat, fin: bool, sendalot: bool)
      requires Open()
      modifies `nxt, `n, `rexmt, `persist, `rxtShift
      ensures Open() && (send <==> old(Due(n - u, cwnd, wasIdle))) && n == PulledTo(old(n) - u, cwnd)
      ensures rexmt == if ClosedOn(old(n) - u, cwnd) then 0 else old(rexmt)
      ensures send ==> MaySend(len, fin) && len == Min(Max(Unsent(old(n) - u, cwnd), 0), maxSeg - optLen)
      ensures send ==> (sendalot <==> Unsent(old(n) - u, cwnd) > maxSeg - optLen)
      ensures send ==> (fin <==> !sendalot && FinGoes(old(n) - u, n + len, cwnd))
      ensures send ==> persist <= old(persist) && (Shut(cwnd) ==> persist == old(persist))
      ensures send && force && persist > 0 ==> Probing(cwnd)
      ensures !send ==> Resting(wasIdle) && (snd != [] ==> rexmt > 0 || persist > 0)
    {
      hide Numbers, Counts, Advertised, SendsFin, Buffered, Running, SDiff, UpdateDue, Wrap, WindowKnown, DataDue,
           FinDue, Due, Resting, PulledTo, FinGoes, ClosedOn, Unsent, Usable, Probing, Shut, Wanted;
      Bounded();
      Segments();
      var off;
      len, off, fin, sendalot := Amount();
      send := Wanted(len, off, fin, wasIdle);
      WantedIs(off, len, fin, wasIdle);
      if !send {
        NothingDue(off, wasIdle);
        if snd != [] && rexmt == 0 && persist == 0 {
          rxtShift := 0;
          SetPersist();
        }
        return;
      }
      if len > maxSeg - optLen {
        Shorter(len);
        len, sendalot, fin := maxSeg - optLen, true, false;
      }
    }

    lemma Shorter(len: nat)
      requires Open()
      ensures forall fin, less: nat :: MaySend(len, fin) && less <= len ==> MaySend(less, false)
    {
    }

    // A FIN that is sent again gets the number it had.
    method StepBack(len: nat, fin: bool)
      requires Open() && MaySend(len, fin)
      modifies `nxt, `n
      ensures Open() && MaySend(len, fin) && (fin ==> n + len == u + |snd|)
      ensures n == if fin && old(sentFin && n == x) then old(n) - 1 else old(n)
      ensures len > 0 ==> n == old(n)
    {
      hide Advertised, Wrap, SDiff, Buffered;
      Offsets();
      if fin && sentFin && nxt == max {
        WrapAdd(base + n, -1);
        nxt, n := Wrap(nxt - 1), n - 1;
      }
    }

    // All the space there is, but nothing of a small one, and never less than before.
    ghost predicate Offers(win: int)
      reads `rcvSpace, `r, `e
    {
      win == Max(e - r, if rcvSpace < rcvHiwat / 4 && rcvSpace < maxSeg then 0
                        else Min(rcvSpace, MAX_WIN * Pow2(rcvScale)))
    }

    // The receive window to advertise: no silly window, and no shrinking.
    method OfferWindow() returns (win: nat)
      requires Open()
      ensures e <= r + win && win <= MAX_WIN * Pow2(rcvScale) && Offers(win)
    {
      hide Wrap, SDiff, Numbers, Counts, Timers, Pow2, Buffered;
      BoundPow(rcvScale);
      DiffIs(rcvBase, e, r);
      var w, adv := rcvSpace, SDiff(rcvAdv, rcvNxt);
      if w < rcvHiwat / 4 && w < maxSeg {
        w := 0;
      }
      if w > MAX_WIN * Pow2(rcvScale) {
        w := MAX_WIN * Pow2(rcvScale);
      }
      if w < adv {
        w := adv;
      }
      win := w;
    }

    // Remembers the size of the window advertised if it is larger than any before.
    method Advertise(win: nat)
      requires Open() && e <= r + win && win <= MAX_WIN * Pow2(rcvScale)
      modifies `rcvAdv, `e, `ackNow
      ensures Open() && e == (if win > 0 then Max(old(e), r + win) else old(e)) && !ackNow
    {
      hide Wrap, SDiff, Numbers, Counts, Timers, Pow2, Buffered;
      BoundPow(rcvScale);
      DiffIs(rcvBase, r + win, e);
      WrapAdd(rcvBase + r, win);
      if win > 0 && SeqGt(Wrap(rcvNxt + win), rcvAdv) {
        rcvAdv, e := Wrap(rcvNxt + win), r + win;
      }
      ackNow := false;
    }

    // Advances snd_nxt over the sequence space of the segment, and snd_max with it; times the
    // transmission if nothing else is being timed.
    method GoPast(len: nat, fin: bool)
      requires Open() && MaySend(len, fin) && (fin ==> n + len == u + |snd|) && len <= MAX_BUFFER
      modifies `nxt, `n, `max, `x, `sentFin, `rtt, `rtSeq
      ensures Open() && n == old(n) + len + (if fin then 1 else 0) && x == Max(old(x), n)
          && sentFin == (old(sentFin) || fin)
    {
      hide Advertised, Timers, Wrap, SDiff, Buffered;
      ghost var k := len + if fin then 1 else 0;
      NextNumber(len, fin, k);
      var startSeq := nxt;
      if fin {
        nxt, sentFin := Wrap(nxt + 1), true;
      }
      nxt := Wrap(nxt + len);
      n := n + k;
      if SeqGt(nxt, max) {
        max, x := nxt, n;
        TimeIt(startSeq);
      }
    }

    // Times the transmission unless another one is being timed.
    method TimeIt(startSeq: nat)
      modifies `rtt, `rtSeq
      ensures if old(rtt) == 0 then rtt == 1 && rtSeq == startSeq else rtt == old(rtt) && rtSeq == old(rtSeq)
    {
      if rtt == 0 {
        rtt, rtSeq := 1, startSeq;
      }
    }

    lemma NextNumber(len: nat, fin: bool, k: nat)
      requires Open() && MaySend(len, fin) && (fin ==> n + len == u + |snd|) && len <= MAX_BUFFER
          && k == len + if fin then 1 else 0
      ensures Wrap(if fin then Wrap(nxt + 1) + len else nxt + len) == Wrap(base + (n + k))
      ensures SDiff(Wrap(base + (n + k)), max) == n + k - x
      ensures !fin ==> n + k <= x || (n + k <= u + |snd| && !sentFin)
      ensures fin ==> !Ended(state) && n + k == u + |snd| + 1 && SendsFin(state)
    {
      hide Advertised, Timers, Wrap, SDiff, Buffered;
      Compare(n + k, x);
      WrapAdd(base + n, 1);
      WrapAdd(base + n, len);
      WrapAdd(base + n + 1, len);
    }

    // A persist probe leaves snd_nxt where it is.
    method Probe(len: nat)
      requires Open() && MaySend(len, false) && len <= MAX_BUFFER
      modifies `max, `x
      ensures Open() && x == Max(old(x), n + len)
    {
      hide Advertised, Timers, Wrap, SDiff, Buffered;
      Ends(len);
      if SeqGt(Wrap(nxt + len), max) {
        max, x := Wrap(nxt + len), n + len;
      }
    }

    // The retransmit timer runs while something is outstanding.
    method StartTimer()
      requires Open()
      modifies `rexmt, `persist, `rxtShift
      ensures Open() && (n != u || old(rexmt) > 0 ==> rexmt > 0) && (persist > 0 ==> persist == old(persist))
      ensures old(rexmt > 0 || persist > 0) ==> rexmt > 0 || persist > 0
      ensures n == u ==> rexmt == old(rexmt) && persist == old(persist)
    {
      hide Advertised, Wrap, SDiff, Buffered, Counts;
      Offsets();
      if rexmt == 0 && nxt != una {
        rexmt := rxtCur;
        if persist > 0 {
          persist, rxtShift := 0, 0;
        }
      }
    }

    // Accounts for the segment: snd_nxt goes past it in transmit state, and snd_max keeps up.
    method Account(len: nat, fin: bool)
      requires Open() && MaySend(len, fin) && (fin ==> n + len == u + |snd|) && len <= MAX_BUFFER
      modifies `nxt, `n, `max, `x, `sentFin, `rtt, `rtSeq, `rexmt, `persist, `rxtShift
      ensures Open() && old(x) <= x
      ensures !(force && old(persist) > 0) ==> n == old(n) + len + (if fin then 1 else 0)
      ensures force && old(persist) > 0 ==> n == old(n) && persist > 0
      ensures len > 0 || fin ==> rexmt > 0 || persist > 0
      ensures old(rexmt > 0 || persist > 0) ==> rexmt > 0 || persist > 0
      ensures persist <= old(persist) && (old(rexmt) > 0 ==> rexmt > 0)
      ensures !(force && old(persist) > 0) && n != u ==> rexmt > 0
      ensures len == 0 && !fin && n == u ==> rexmt == old(rexmt) && persist == old(persist)
      ensures sentFin == (old(sentFin) || (fin && !(force && old(persist) > 0)))
    {
      hide Advertised, Wrap, SDiff, Buffered, Counts, Timers;
      if !force || persist == 0 {
        GoPast(len, fin);
        StartTimer();
      } else {
        Probe(len);
      }
    }

    // The segment carries what stands in the user's stream from byte o on, nothing that has been
    // acknowledged, and a FIN only where the stream ends.
    ghost predicate Carries(s: Seg, o: nat)
      reads `stream, `u, `state
    {
      s.data != [] || s.fin ==>
        && s.seq_ == Wrap(base + o) && u <= o && o + |s.data| <= |stream| && s.data == stream[o..o + |s.data|]
        && (s.fin ==> o + |s.data| == |stream| && SendsFin(state))
    }

    method Build(len: nat, fin: bool, win: nat) returns (s: Seg)
      requires Open() && MaySend(len, fin) && (fin ==> n + len == u + |snd|)
      ensures Carries(s, n) && |s.data| == len && s.fin == fin && s.win == win
      ensures s.seq_ == if len > 0 || fin || persist > 0 then nxt else max
    {
      hide Wrap, SDiff, Advertised, Timers;
      Offsets();
      var off := SDiff(nxt, una);
      var data := [];
      if len > 0 {
        data := snd[off..off + len];
      }
      s := Seg(if len > 0 || fin || persist > 0 then nxt else max, data, fin, win);
    }

    // Builds the segment and accounts for it.
    method SendOne(len: nat, withFin: bool) returns (s: Seg, ghost o: nat, failed: bool)
      requires Open() && MaySend(len, withFin) && len <= MAX_BUFFER
      modifies `nxt, `n, `max, `x, `sentFin, `rtt, `rtSeq, `rexmt, `persist, `rxtShift, `rcvAdv, `e, `ackNow, `cwnd
      ensures Open() && Carries(s, o) && |s.data| == len && s.fin == withFin && old(x) <= x
      ensures old(e) <= r + s.win && old(e) <= e && (!failed && s.win > 0 ==> e == Max(old(e), r + s.win))
      ensures !(force && old(persist) > 0) && len > 0 && !withFin ==> n == old(n) + len
      ensures !(force && old(persist) > 0) ==> n >= old(n) + len && (if withFin then sentFin else n == old(n) + len)
      ensures cwnd == maxSeg || cwnd == old(cwnd)
      ensures (old(sentFin) ==> sentFin) && (!failed && r <= e && rcvHiwat > 0 ==> WindowKnown())
      ensures n <= u + |snd| + 1 && (!ackNow || old(ackNow)) && (!failed ==> cwnd == old(cwnd))
      ensures o == (if withFin && old(sentFin && n == x) then old(n) - 1 else old(n)) && (len > 0 ==> o == old(n))
      ensures persist <= old(persist) && (old(rexmt) > 0 ==> rexmt > 0)
      ensures !(force && old(persist) > 0) && len > 0 ==> rexmt > 0
      ensures len > 0 || withFin || old(n) != u || old(rexmt > 0 || persist > 0) ==> rexmt > 0 || persist > 0
      ensures len == 0 && !withFin && old(n) == u ==> rexmt == old(rexmt) && persist == old(persist) && n == u
    {
      hide Wrap, SDiff, Pow2, Numbers, Counts, Advertised, Timers, Buffered, Running, Carries, MaySend, SendsFin,
           WindowKnown, Offers;
      Bounded();
      StepBack(len, withFin);
      var win := OfferWindow();
      o := n;
      s := Build(len, withFin, win);
      Account(len, withFin);
      Bounded();
      failed := HandOver(win);
    }

    // ip_output may fail, for want of buffers for one.
    method HandOver(win: nat) returns (failed: bool)
      requires Open() && e <= r + win && win <= MAX_WIN * Pow2(rcvScale) && Offers(win)
      modifies `rcvAdv, `e, `ackNow, `cwnd
      ensures Open() && old(e) <= e && (!failed && win > 0 ==> e == Max(old(e), r + win))
      ensures (!ackNow || old(ackNow)) && (!failed ==> cwnd == old(cwnd) && !ackNow)
      ensures !failed && r <= e && rcvHiwat > 0 ==> WindowKnown()
      ensures cwnd == maxSeg || cwnd == old(cwnd)
    {
      hide Wrap, SDiff, Pow2, Numbers, Counts, Advertised, Timers, Buffered, Running;
      Segments();
      failed := *;
      if failed {
        var noBuffers: bool := *;
        if noBuffers {
          cwnd := maxSeg;      // tcp_quench
        }
        return;
      }
      Advertise(win);
    }

    lemma Bounded()
      requires Open()
      ensures u <= n <= u + |snd| + 1
    {
    }

    // Every segment of a run of tcp_output, and its place in the stream.
    ghost predicate AllCarried(out: seq<Seg>, os: seq<nat>, edge: int)
      reads `stream, `u, `state, `r
    {
      |out| == |os| && forall k :: 0 <= k < |out| ==> Carries(out[k], os[k]) && edge <= r + out[k].win
    }

    lemma NoneCarried()
      ensures forall edge :: AllCarried([], [], edge)
    {
    }

    lemma AlsoCarried(out: seq<Seg>, os: seq<nat>, edge: int, more: seq<Seg>, moreOs: seq<nat>, edge': int)
      requires AllCarried(out, os, edge) && AllCarried(more, moreOs, edge') && edge <= edge'
      ensures AllCarried(out + more, os + moreOs, edge)
    {
    }

    lemma OneMore(out: seq<Seg>, os: seq<nat>, edge: int, s: Seg, o: nat)
      requires AllCarried(out, os, edge) && Carries(s, o) && edge <= r + s.win
      ensures AllCarried(out + [s], os + [o], edge)
    {
    }

    // Data are left with neither timer running: the window is closed, no timer keeps watch, and there
    // is another reason to send a segment, so that the persist timer is not set.
    predicate Stalled(cw: nat)
      reads `snd, `persist, `nxt, `una, `rexmt, `ackNow, `wnd, `force, `rcvSpace, `rcvAdv, `rcvNxt
    {
      && snd != [] && Shut(cw) && persist == 0 && (nxt != una || rexmt == 0) && (ackNow || UpdateDue())
    }

    predicate Stalls()
      reads this
    {
      Stalled(Cwnd())
    }

    // The first segment has what stands at snd_una: data, or the FIN if there are none.
    ghost predicate FromUna(out: seq<Seg>, os: seq<nat>)
      reads `u, `snd
    {
      out != [] && os != [] && os[0] == u && if snd == [] then out[0].fin else out[0].data != []
    }

    // A segment with all that may go leaves nothing due.
    lemma SentAll(k: int, mid: int, len: int, fin: bool, wasIdle: bool)
      requires Open() && 0 <= k && mid == PulledTo(k, cwnd) && len == Max(Unsent(k, cwnd), 0)
      requires !Probing(cwnd) ==> n >= mid + len && if fin then sentFin else n == mid + len
      requires fin <==> FinGoes(k, mid + len, cwnd)
      requires r <= e && rcvHiwat > 0 ==> WindowKnown()
      ensures Resting(wasIdle) && (!Probing(cwnd) ==> Unsent(n - u, cwnd) <= 0)
    {
      hide Numbers, Counts, Advertised, Timers, Buffered, Running, WindowKnown;
    }

    // What Decide has chosen for bytes from k on.
    ghost predicate Chosen(k: int, mid: nat, cw: nat, len: nat, fin: bool, sendalot: bool)
      reads `state, `u, `snd, `wnd, `force
    {
      && 0 <= k && mid == PulledTo(k, cw) && len == Min(Max(Unsent(k, cw), 0), maxSeg - optLen)
      && (sendalot <==> Unsent(k, cw) > maxSeg - optLen) && (fin <==> !sendalot && FinGoes(k, mid + len, cw))
    }

    // Sends what has been chosen.
    method Act(ghost k: int, len: nat, fin: bool, sendalot: bool, ghost wasIdle: bool)
      returns (s: Seg, ghost o: nat, again: bool, failed: bool)
      requires Open() && MaySend(len, fin) && Chosen(k, n, cwnd, len, fin, sendalot)
      requires force && persist > 0 ==> Probing(cwnd)
      modifies `nxt, `n, `max, `x, `sentFin, `rtt, `rtSeq, `rexmt, `persist, `rxtShift, `rcvAdv, `e, `ackNow, `cwnd
      ensures Open() && old(x) <= x && old(e) <= e && (!ackNow || old(ackNow)) && n <= u + |snd| + 1
      ensures Carries(s, o) && old(e) <= r + s.win && |s.data| == len && s.fin == fin && persist <= old(persist)
      ensures again ==> !failed && len == maxSeg - optLen && !fin && n == o + len && !Shut(cwnd)
      ensures len > 0 ==> o == old(n) && o + len <= u + old(Usable(cwnd))
      ensures !(force && old(persist) > 0) ==> n >= old(n) + len && (len > 0 ==> rexmt > 0)
      ensures fin && old(sentFin && n == x) ==> o + 1 == old(n)
      ensures fin && !old(sentFin && n == x) ==> o == old(n)
      ensures (old(rexmt) > 0 ==> rexmt > 0) && (again ==> sendalot && len > 0)
      ensures cwnd == maxSeg || cwnd == old(cwnd)
      ensures len > 0 || fin || old(n) != u || old(rexmt > 0 || persist > 0) ==> rexmt > 0 || persist > 0
      ensures len == 0 && !fin && old(n) == u ==> rexmt == old(rexmt) && persist == old(persist) && n == u
      ensures !failed ==> cwnd == old(cwnd)
      ensures !failed && !again ==> Resting(wasIdle) && (!Probing(cwnd) ==> Unsent(n - u, cwnd) <= 0)
    {
      hide Wrap, SDiff, Pow2, Numbers, Counts, Advertised, Buffered, Carries, MaySend, Timers, SendsFin, Running,
           UpdateDue, WindowKnown, Due, Resting, FinGoes, PulledTo, ClosedOn, Unsent, Usable, Probing, Pressing, Shut;
      Segments();
      Within(len, fin);
      ghost var mid := n;
      if 0 < len { Fits(k, len); }
      OpenWhen(k);
      s, o, failed := SendOne(len, fin);
      again := sendalot && !failed;
      if !failed && !sendalot { SentAll(k, mid, len, fin, wasIdle); }
      Bounded();
    }

    lemma OpenWhen(k: int)
      requires 0 <= k
      ensures Unsent(k, cwnd) > 0 ==> !Shut(cwnd)
      ensures Unsent(k, cwnd) > 1 ==> !Probing(cwnd)
    {
    }

    // One turn of tcp_output, from again to its end.
    method Once(wasIdle: bool) returns (sent: bool, s: Seg, ghost o: nat, again: bool, failed: bool)
      requires Open()
      modifies `nxt, `n, `max, `x, `sentFin, `rtt, `rtSeq, `rexmt, `persist, `rxtShift, `rcvAdv, `e, `ackNow, `cwnd
      ensures Open() && old(x) <= x && old(e) <= e && (!ackNow || old(ackNow)) && n <= u + |snd| + 1
      ensures sent ==> Carries(s, o) && old(e) <= r + s.win
      ensures again ==> sent && !failed && !Shut(cwnd) && n > old(n) && persist <= old(persist)
      ensures snd != [] && rexmt == 0 && persist == 0 <==> old(Stalled(cwnd))
      ensures old(ackNow) ==> sent
      ensures old(Pressing(cwnd, wasIdle)) ==> sent && o == u && if snd == [] then s.fin else s.data != []
      ensures sent && s.data != [] ==> o == old(n) && (!(force && old(persist) > 0) ==> n > old(n) && rexmt > 0)
      ensures old(rexmt > 0 && !Shut(cwnd)) ==> rexmt > 0
      ensures snd != [] && old(Shut(cwnd)) ==> n == u && !again && rexmt == if old(n) == u then old(rexmt) else 0
      ensures !old(Shut(cwnd)) && !(force && old(persist) > 0) ==> n >= old(n)
      ensures (sent <==> old(Due(n - u, cwnd, wasIdle))) && (!failed ==> cwnd == old(cwnd))
      ensures !failed && !again ==> Resting(wasIdle)
      ensures sent ==> |s.data| <= maxSeg - optLen && (s.data != [] ==> o + |s.data| <= u + old(Usable(cwnd)))
      ensures again ==> |s.data| == maxSeg - optLen && !s.fin && n == o + |s.data|
      ensures sent && !failed && !again && !Probing(cwnd) ==> Unsent(n - u, cwnd) <= 0
      ensures cwnd == maxSeg || cwnd == old(cwnd)
    {
      hide Wrap, SDiff, Pow2, Numbers, Counts, Advertised, Buffered, Carries, MaySend, Timers, SendsFin, Running,
           UpdateDue, WindowKnown, Due, Resting, FinGoes, PulledTo, ClosedOn, Unsent, Usable, Probing, Pressing, Shut;
      Bounded();
      Segments();
      ghost var k, cw := n - u, cwnd;
      Same();
      Cases(k, cw, wasIdle);
      var len, fin, sendalot;
      sent, len, fin, sendalot := Decide(wasIdle);
      s, o, again, failed := Seg(0, [], false, 0), 0, false, false;
      if sent {
        s, o, again, failed := Act(k, len, fin, sendalot, wasIdle);
      }
      Bounded();
    }

    lemma Same()
      requires Open()
      ensures nxt != una <==> n != u
    {
      hide Wrap, SDiff;
      Offsets();
    }

    lemma Cases(k: int, cw: nat, wasIdle: bool)
      requires Open() && 0 <= k == n - u
      ensures snd != [] && Shut(cw) ==>
        && (Due(k, cw, wasIdle) <==> ackNow || UpdateDue()) && Unsent(k, cw) <= 0 && PulledTo(k, cw) == u
        && !FinGoes(k, u, cw) && (ClosedOn(k, cw) <==> k > 0)
      ensures !Shut(cw) ==> PulledTo(k, cw) == n && !ClosedOn(k, cw) && (snd != [] && Unsent(k, cw) <= 0 ==> k != 0)
      ensures Pressing(cw, wasIdle) ==>
        && k == 0 && Due(k, cw, wasIdle) && PulledTo(k, cw) == u
        && if snd == [] then Unsent(k, cw) == 0 && FinGoes(k, u, cw) && u < x else Unsent(k, cw) > 0
      ensures ackNow ==> Due(k, cw, wasIdle)
      ensures (Shut(cw) ==> Unsent(k, cw) <= 0) && (Probing(cw) ==> Unsent(k, cw) <= 1)
    {
      hide Numbers, Counts, Advertised, Buffered, Timers, Running, UpdateDue, WindowKnown, FinGoes, DataDue, FinDue,
           PulledTo, ClosedOn;
      if snd != [] && Shut(cw) { DueWhenShut(k, cw, wasIdle); }
      if !Shut(cw) { DueWhenOpen(k, cw); }
      if Pressing(cw, wasIdle) { DueWhenPressing(cw, wasIdle); }
    }

    // What goes out fits into the window.
    lemma Fits(k: int, len: int)
      requires Open() && 0 < len <= Unsent(k, cwnd)
      ensures PulledTo(k, cwnd) == u + k && k + len <= Usable(cwnd)
    {
    }

    lemma Segments()
      requires Open()
      ensures optLen < maxSeg
    {
    }

    // The turns after the first, while there is more to send.
    method Further(wasIdle: bool) returns (out: seq<Seg>, ghost os: seq<nat>, failed: bool)
      requires Open() && !Shut(cwnd) && (snd != [] ==> rexmt > 0 || persist > 0)
      modifies `nxt, `n, `max, `x, `sentFin, `rtt, `rtSeq, `rexmt, `persist, `rxtShift, `rcvAdv, `e, `ackNow, `cwnd
      ensures Open() && old(x) <= x && old(e) <= e && AllCarried(out, os, old(e)) && (!ackNow || old(ackNow))
      ensures (snd != [] ==> rexmt > 0 || persist > 0) && (old(rexmt) > 0 ==> rexmt > 0)
      ensures !(force && old(persist) > 0) ==> n >= old(n)
      ensures (!failed ==> cwnd == old(cwnd) && Resting(wasIdle)) && (cwnd == maxSeg || cwnd == old(cwnd))
      ensures Packed(out, os, maxSeg - optLen, u + old(Usable(cwnd)))
      ensures FirstFrom(out, os, old(n))
      ensures !failed && !Probing(cwnd) ==> EndsFull(out, maxSeg - optLen) || Unsent(n - u, cwnd) <= 0
    {
      hide Wrap, SDiff, Pow2, Numbers, Counts, Advertised, Buffered, AllCarried, Carries, MaySend, Timers, SendsFin,
           Running, UpdateDue, Pressing, Stalled, Due, Resting, Packed, Chained, EndsFull, Unsent, Usable, Probing,
           FirstFrom, FromUna, Sized, Shut;
      out, os := [], [];
      NoneCarried();
      Bounded();
      Segments();
      ghost var cw, full, edge := cwnd, maxSeg - optLen, u + Usable(cwnd);
      NonePacked(full, edge, n);
      var again := true;
      failed := false;
      while again
        invariant n <= u + |snd| + 1 && Open() && old(x) <= x && old(e) <= e && AllCarried(out, os, old(e))
        invariant again ==> !failed && persist <= old(persist) && Chained(out, os, full, n) && EndsFull(out, full)
        invariant (!failed ==> cwnd == cw && (!again ==> Resting(wasIdle))) && (cwnd == maxSeg || cwnd == cw)
        invariant (snd != [] ==> rexmt > 0 || persist > 0) && (!ackNow || old(ackNow))
        invariant (!(force && old(persist) > 0) ==> n >= old(n)) && (old(rexmt) > 0 ==> rexmt > 0)
        invariant Packed(out, os, full, edge) && |out| == |os| && (out == [] && again ==> n == old(n))
        invariant FirstFrom(out, os, old(n))
        invariant !again && !failed && !Probing(cwnd) ==> EndsFull(out, full) || Unsent(n - u, cwnd) <= 0
        decreases if again then 2 + u + |snd| - n else 0
      {
        var sent, s;
        ghost var o;
        NotWhileOpen(cw);
        ghost var at := n;
        sent, s, o, again, failed := Once(wasIdle);
        if sent {
          OneMore(out, os, old(e), s, o);
          PackedMore(out, os, s, o, full, edge, at);
          FirstStays(out, os, s, o, old(n));
          out, os := out + [s], os + [o];
        }
      }
    }

    // True when nothing is outstanding.
    method AfterIdle() returns (wasIdle: bool)
      requires Open()
      modifies `cwnd
      ensures Open() && wasIdle == (max == una) == (x == u) && cwnd == old(Cwnd()) && (Stalled(cwnd) <==> old(Stalls()))
    {
      hide Advertised, Buffered, Timers, Running, UpdateDue, Shut;
      Offsets();
      wasIdle := max == una;
      if wasIdle && idle >= rxtCur {
        cwnd := maxSeg;
      }
    }

    // All the turns.
    method Turns(wasIdle: bool) returns (out: seq<Seg>, ghost os: seq<nat>, failed: bool)
      requires Open()
      modifies `nxt, `n, `max, `x, `sentFin, `rtt, `rtSeq, `rexmt, `persist, `rxtShift, `rcvAdv, `e, `ackNow, `cwnd
      ensures Open() && old(x) <= x && old(e) <= e && AllCarried(out, os, old(e)) && (!ackNow || old(ackNow))
      ensures snd != [] && rexmt == 0 && persist == 0 <==> old(Stalled(cwnd))
      ensures old(Pressing(cwnd, wasIdle)) ==> FromUna(out, os)
      ensures FirstFrom(out, os, old(n)) && (HasData(out) && !(force && old(persist) > 0) ==> n > old(n) && rexmt > 0)
      ensures snd != [] && old(Shut(cwnd)) ==> n == u && rexmt == if old(n) == u then old(rexmt) else 0
      ensures out != [] <==> old(Due(n - u, cwnd, wasIdle))
      ensures (!failed ==> cwnd == old(cwnd) && Resting(wasIdle)) && (cwnd == maxSeg || cwnd == old(cwnd))
      ensures Packed(out, os, maxSeg - optLen, u + old(Usable(cwnd)))
      ensures !failed && !Probing(cwnd) ==> EndsFull(out, maxSeg - optLen) || Unsent(n - u, cwnd) <= 0
    {
      hide Wrap, SDiff, Pow2, Numbers, Counts, Advertised, Buffered, AllCarried, Carries, MaySend, Timers, SendsFin,
           Running, UpdateDue, Pressing, Stalled, Stalls, Cwnd, Shut, Due, Resting, Packed, Chained, EndsFull, Unsent,
           Usable, Probing, FromUna, FirstFrom, HasData;
      NotWhileOpen(cwnd);
      ghost var edge, full, limit, at, was := e, maxSeg - optLen, u + Usable(cwnd), n, rexmt;
      Segments();
      var sent, s, again;
      ghost var o;
      sent, s, o, again, failed := Once(wasIdle);
      out, os := [], [];
      if sent {
        out, os := [s], [o];
        OneCarried(s, o, edge);
        OnePacked(s, o, full, limit);
        FromFirst(s, o, [], [], at);
      }
      if again {
        ghost var later := e;
        var more;
        ghost var moreOs;
        more, moreOs, failed := Further(wasIdle);
        AlsoCarried(out, os, edge, more, moreOs, later);
        PackedJoin(s, o, more, moreOs, full, limit);
        FromFirst(s, o, more, moreOs, at);
        out, os := out + more, os + moreOs;
      } else {
        NoneCarried();
        NonePacked(full, limit, at);
      }
    }

    lemma OneCarried(s: Seg, o: nat, edge: int)
      requires Carries(s, o) && edge <= r + s.win
      ensures AllCarried([s], [o], edge)
    {
    }

    lemma FromFirst(s: Seg, o: nat, more: seq<Seg>, moreOs: seq<nat>, at: nat)
      ensures o == u && (if snd == [] then s.fin else s.data != []) ==> FromUna([s] + more, [o] + moreOs)
      ensures (s.data != [] ==> o == at) ==> FirstFrom([s] + more, [o] + moreOs, at)
      ensures HasData([s] + more) <==> s.data != []
      ensures [s] + [] == [s] && [o] + [] == [o]
    {
    }

    // tcp_output.  Data that are left wait for a timer, but for the one case of Stalls; what is left is
    // not worth a segment.  failed: ip_output has reported an error for the last segment.
    method Output() returns (out: seq<Seg>, ghost os: seq<nat>, failed: bool)
      requires Open()
      modifies `nxt, `n, `max, `x, `sentFin, `rtt, `rtSeq, `rexmt, `persist, `rxtShift, `rcvAdv, `e, `ackNow, `cwnd
      ensures Open() && old(x) <= x && old(e) <= e && AllCarried(out, os, old(e)) && (!ackNow || old(ackNow))
      ensures snd != [] && rexmt == 0 && persist == 0 <==> old(Stalls())
      ensures old(ackNow) ==> out != []
      ensures old(Pressing(Cwnd(), max == una)) ==> FromUna(out, os)
      ensures FirstFrom(out, os, old(n)) && (HasData(out) && !(force && old(persist) > 0) ==> n > old(n) && rexmt > 0)
      ensures snd != [] && old(Shut(Cwnd())) ==> n == u && rexmt == if old(n) == u then old(rexmt) else 0
      ensures (out != [] <==> old(Due(n - u, Cwnd(), x == u))) && (cwnd == maxSeg || cwnd == old(cwnd))
      ensures Packed(out, os, maxSeg - optLen, u + old(Usable(Cwnd())))
      ensures !failed && !Probing(cwnd) ==> EndsFull(out, maxSeg - optLen) || Unsent(n - u, cwnd) <= 0
      ensures !failed ==> Resting(old(x == u)) && cwnd == if old(x == u && idle >= rxtCur) then maxSeg else old(cwnd)
      ensures !failed && !(force && Min(wnd, cwnd) == 0) ==>
        var left := Min(|snd|, Min(wnd, cwnd)) - (n - u);
        && left < maxSeg && (left > 0 ==> left < maxWnd / 2 && x <= n && !force)
        && ((old(x == u) || noDelay) && |snd| <= Min(wnd, cwnd) ==> n - u >= |snd|)
        && (SendsFin(state) && n - u >= |snd| ==> sentFin)
      ensures !failed && rcvHiwat > 0 && 0 < rcvSpace && r <= e ==>
        var more := Min(rcvSpace, MAX_WIN * Pow2(rcvScale)) - (e - r);
        more < 2 * maxSeg && 2 * more < rcvHiwat
    {
      hide Wrap, SDiff, Pow2, Numbers, Counts, Advertised, Buffered, AllCarried, Carries, MaySend, Timers, SendsFin,
           Running, UpdateDue, Pressing, Stalled, Stalls, Shut, Due, Resting, Packed, Chained, EndsFull, Unsent,
           Usable, Probing, FromUna, FirstFrom, HasData;
      Same();
      Idle();
      AlwaysDue();
      var wasIdle := AfterIdle();
      out, os, failed := Turns(wasIdle);
      if !failed { Rested(wasIdle); }
    }

    // tcp_output where its error is of no interest.
    method Emit() returns (out: seq<Seg>, ghost os: seq<nat>)
      requires Open()
      modifies `nxt, `n, `max, `x, `sentFin, `rtt, `rtSeq, `rexmt, `persist, `rxtShift, `rcvAdv, `e, `ackNow, `cwnd
      ensures Open() && old(x) <= x && old(e) <= e && AllCarried(out, os, old(e)) && (!ackNow || old(ackNow))
      ensures snd != [] && rexmt == 0 && persist == 0 <==> old(Stalls())
      ensures old(ackNow) ==> out != []
      ensures old(Pressing(Cwnd(), max == una)) ==> FromUna(out, os)
      ensures FirstFrom(out, os, old(n)) && (HasData(out) && !(force && old(persist) > 0) ==> n > old(n) && rexmt > 0)
      ensures cwnd == maxSeg || cwnd == old(cwnd)
      ensures snd != [] && old(Shut(Cwnd())) ==> n == u && rexmt == if old(n) == u then old(rexmt) else 0
    {
      hide *;
      var error;
      out, os, error := Output();
    }

    lemma Idle()
      requires Open()
      ensures max == una <==> x == u
    {
      hide Wrap, SDiff;
      Offsets();
    }

    lemma AlwaysDue()
      ensures ackNow ==> forall k, cw, wasIdle :: Due(k, cw, wasIdle)
    {
    }

    lemma Rested(wasIdle: bool)
      requires Open() && Resting(wasIdle)
      ensures !(force && Min(wnd, cwnd) == 0) ==>
        var left := Min(|snd|, Min(wnd, cwnd)) - (n - u);
        && left < maxSeg && (left > 0 ==> left < maxWnd / 2 && x <= n && !force)
        && ((wasIdle || noDelay) && |snd| <= Min(wnd, cwnd) ==> n - u >= |snd|)
        && (SendsFin(state) && n - u >= |snd| ==> sentFin)
      ensures rcvHiwat > 0 && 0 < rcvSpace && r <= e ==>
        var more := Min(rcvSpace, MAX_WIN * Pow2(rcvScale)) - (e - r);
        more < 2 * maxSeg && 2 * more < rcvHiwat
    {
      hide Numbers, Counts, Buffered, Advertised, Pow2;
    }

    lemma NotWhileOpen(cw: nat)
      ensures Stalled(cw) ==> Shut(cw)
    {
    }

    lemma Within(len: nat, fin: bool)
      requires Open() && MaySend(len, fin)
      ensures len <= MAX_BUFFER && n + len <= u + |snd| + 1
    {
    }

    // ---- acknowledgements --------------------------------------------------------------------------------

    // An acknowledgement between snd_una and snd_max stands for an offset of the stream.
    lemma AckPlace(ack: nat)
      requires Open() && ack < M && SeqGt(ack, una) && SeqLeq(ack, max)
      ensures var d := SDiff(ack, una);
        && ack == Wrap(base + (u + d)) && 0 < d <= x - u && SDiff(nxt, ack) == n - (u + d)
            && (ack == max <==> u + d == x)
        && (d > |snd| ==> sentFin && !Ended(state) && u + d == x && d == |snd| + 1)
    {
      hide Wrap, SDiff, Timers, Advertised, Buffered;
      var d := SDiff(ack, una);
      SDiffBack(ack, una);
      WrapAdd(base + u, d);
      Compare(u + d, x);
      Compare(n, u + d);
      SDiffSame(ack);
    }

    // tcp_xmit_timer, if the segment being timed has been acknowledged.
    method Timing(ack: nat)
      requires Open()
      modifies `est, `rtt, `rxtShift, `rxtCur
      ensures Open() && if old(rtt > 0 && SeqGt(ack, rtSeq)) then
                est == Measure(old(est), old(rtt)) && rtt == rxtShift == 0 && rxtCur == Interval(est, 0, rttMin)
              else
                est == old(est) && rtt == old(rtt) && rxtShift == old(rxtShift) && rxtCur == old(rxtCur)
    {
      hide Numbers, Counts, Advertised, Measure, Buffered;
      if rtt > 0 && SeqGt(ack, rtSeq) {
        est := Measure(est, rtt);
        rtt, rxtShift := 0, 0;
        rxtCur := RangeSet(RexmtVal(est), rttMin, REXMT_MAX);
      }
    }

    // All acknowledged: the retransmit timer stops; otherwise it starts again.
    method Restart(ack: nat)
      requires Open() && u < x
      modifies `rexmt
      ensures Open() && rexmt == if ack == max then 0 else if persist == 0 then rxtCur else old(rexmt)
    {
      hide Numbers, Counts, Advertised, Buffered;
      if ack == max {
        rexmt := 0;
      } else if persist == 0 {
        rexmt := rxtCur;
      }
    }

    // What an acknowledgement adds to the congestion window.
    function Increment(cw: nat): nat
      reads `ssthresh
    {
      if cw <= ssthresh then maxSeg else maxSeg * maxSeg / cw
    }

    // Beyond ssthresh, the acknowledgements of one window of full segments add no more than one segment.
    lemma OnePerWindow(cw: nat)
      requires cw > ssthresh && maxSeg > 0
      ensures (cw / maxSeg) * Increment(cw) <= maxSeg
    {
      var a, b := cw / maxSeg, maxSeg * maxSeg / cw;
      assert a * maxSeg <= cw && b * cw <= maxSeg * maxSeg;
      LessTimes(a, b, maxSeg, cw);
    }

    // Opens the congestion window: a segment for each acknowledgement, or one for each window.
    method OpenWindow()
      requires Open()
      modifies `cwnd
      ensures Open() && cwnd == Min(old(cwnd) + Increment(old(cwnd)), MAX_WIN * Pow2(sndScale))
      ensures old(cwnd) <= ssthresh ==> cwnd == Min(old(cwnd) + maxSeg, MAX_WIN * Pow2(sndScale))
    {
      hide Numbers, Counts, Advertised, Timers, Buffered;
      var incr := maxSeg;
      if cwnd > ssthresh {
        incr := incr * incr / cwnd;
      }
      ScaledWindow();
      cwnd := Min(cwnd + incr, MAX_WIN * Pow2(sndScale));
    }

    lemma ScaledWindow()
      ensures MAX_WIN * Pow2(sndScale) >= 0
    {
    }

    // Drops what is acknowledged from the buffer; true if that includes our FIN.
    method DropAcked(ack: nat) returns (finAcked: bool)
      requires Open() && ack < M && SeqGt(ack, una) && SeqLeq(ack, max) && (ack == max ==> rexmt == 0)
      modifies `snd, `wnd, `una, `nxt, `u, `n, `state, `rexmt, `persist
      ensures var d := SDiff(ack, old(una));
        && finAcked == (d > |old(snd)|) && (finAcked ==> old(sentFin) && u == x)
        && u == old(u) + d && n == Max(old(n), u) && snd == (if finAcked then [] else old(snd)[d..])
      ensures state == if finAcked then AfterFin(old(state)) else old(state)
      ensures (state != Closed ==> Open()) && wnd == Wrap(old(wnd) - Min(SDiff(ack, old(una)), |old(snd)|))
    {
      hide Wrap, SDiff, Advertised, Timers, Numbers, Counts, Buffered;
      AckPlace(ack);
      var acked := SDiff(ack, una);
      finAcked := acked > |snd|;
      if finAcked {
        wnd := Wrap(wnd - |snd|);
        MoveUp(ack, acked, []);
        EndState();
      } else {
        wnd := Wrap(wnd - acked);
        MoveUp(ack, acked, snd[acked..]);
      }
    }

    // What the counts say after the acknowledgement of d, before the state follows.
    ghost predicate MovedUp(rest: seq<nat>, d: nat)
      reads `state, `snd, `stream, `u, `x, `sentFin
    {
      && rest == snd[Min(d, |snd|)..] && d <= x - u
      && (d > |snd| ==> sentFin && !Ended(state) && u + d == x && d == |snd| + 1)
    }

    method MoveUp(ack: nat, d: nat, rest: seq<nat>)
      requires Open() && 0 < d && MovedUp(rest, d) && ack == Wrap(base + (u + d)) && SDiff(nxt, ack) == n - (u + d)
      requires u + d == x ==> rexmt == 0
      modifies `snd, `una, `nxt, `u, `n
      ensures snd == rest && u == old(u) + d && n == Max(old(n), u)
      ensures d <= old(|snd|) ==> Open()
      ensures d > old(|snd|) ==> AllAcked()
    {
      hide Wrap, SDiff, Advertised, Timers;
      assert d <= |snd| && !Ended(state) ==> snd[d..] == stream[u + d..];
      snd := rest;
      una := ack;
      u := u + d;
      if SeqLt(nxt, una) {
        nxt, n := una, u;
      }
    }

    ghost predicate AllAcked()
      reads this
    {
      && Numbers() && Timers() && Advertised() && SendsFin(state) && sentFin && snd == [] && u == x == |stream| + 1
      && rexmt == 0
    }

    method EndState()
      requires AllAcked()
      modifies `state, `rexmt, `persist
      ensures state == AfterFin(old(state)) && (state != Closed ==> Open())
    {
      hide Wrap, SDiff;
      if state == Closing {
        rexmt, persist := 0, 0;    // tcp_canceltimers
      }
      state := AfterFin(state);
    }

    // The acknowledgement of data or of our FIN.
    method NewAck(ack: nat) returns (finAcked: bool)
      requires Open() && ack < M && SeqGt(ack, una) && SeqLeq(ack, max)
      modifies `snd, `wnd, `una, `nxt, `u, `n, `state, `rexmt, `persist, `est, `rtt, `rxtShift, `rxtCur, `cwnd
      ensures var d := SDiff(ack, old(una));
        && finAcked == (d > |old(snd)|) && (finAcked ==> old(sentFin) && u == x)
        && u == old(u) + d && n == Max(old(n), u) && snd == (if finAcked then [] else old(snd)[d..])
      ensures state == if finAcked then AfterFin(old(state)) else old(state)
      ensures (state != Closed ==> Open()) && wnd == Wrap(old(wnd) - Min(SDiff(ack, old(una)), |old(snd)|))
      ensures cwnd == Min(old(cwnd) + Increment(old(cwnd)), MAX_WIN * Pow2(sndScale))
      ensures old(cwnd) <= ssthresh ==> cwnd == Min(old(cwnd) + maxSeg, MAX_WIN * Pow2(sndScale))
      ensures if old(rtt > 0 && SeqGt(ack, rtSeq)) then
                est == Measure(old(est), old(rtt)) && rtt == rxtShift == 0 && rxtCur == Interval(est, 0, rttMin)
              else
                est == old(est) && rtt == old(rtt) && rxtShift == old(rxtShift) && rxtCur == old(rxtCur)
    {
      hide Wrap, SDiff, Numbers, Counts, Timers, Advertised, Buffered, Increment, Pow2, Measure, Interval;
      AckPlace(ack);
      Timing(ack);
      Restart(ack);
      OpenWindow();
      finAcked := DropAcked(ack);
    }

    // Everything that is not acknowledged is to be sent again.
    method PullBack()
      requires Open()
      modifies `nxt, `n
      ensures Open() && n == u
    {
      hide Advertised, Timers, Counts, Buffered;
      nxt, n := una, u;
    }

    // The third duplicate acknowledgement in a row: retransmits one segment.
    method FastRetransmit() returns (out: seq<Seg>, ghost os: seq<nat>)
      requires Open()
      modifies `nxt, `n, `max, `x, `sentFin, `rtt, `rtSeq, `rexmt, `persist, `rxtShift, `rcvAdv, `e, `ackNow, `cwnd,
               `ssthresh
      ensures Open() && old(x) <= x && old(n) <= n && old(e) <= e && AllCarried(out, os, old(e))
      ensures old(u < x && (snd == [] || wnd > 0)) ==> FromUna(out, os)
      ensures maxSeg > 0 && ssthresh == old(HalfWindow()) * maxSeg && cwnd == ssthresh + maxSeg * dupAcks
      ensures snd != [] && old(wnd == 0 && !force && !ackNow && !UpdateDue()) ==> persist > 0 && rexmt == 0
    {
      hide Wrap, SDiff, Numbers, Counts, Timers, Advertised, Buffered, AllCarried, FromUna, UpdateDue, Pressing,
           Stalled, Running, Shut, Stalls, Cwnd, HalfWindow, FirstFrom;
      var onxt := nxt;
      ghost var on := n;
      Place(on);
      SlowDown();
      StopTimer();
      PullBack();
      Pulled();
      out, os := Emit();
      Inflate();
      KeepNext(onxt, on);
    }

    // What there is to be sent once snd_nxt has been pulled back and the congestion window is one segment.
    lemma Pulled()
      requires Open() && n == u && cwnd == maxSeg
      ensures u < x && (snd == [] || wnd > 0) ==> Pressing(Cwnd(), max == una)
      ensures wnd == 0 && !force ==> Shut(Cwnd())
      ensures !ackNow && !UpdateDue() ==> !Stalls()
    {
      hide Wrap, SDiff, Numbers, Counts, Advertised, Buffered, UpdateDue, Running;
    }

    lemma Place(on: nat)
      requires Open() && on == n
      ensures nxt == Wrap(base + on) && u <= on <= x && maxSeg > 0
    {
    }

    method StopTimer()
      requires Open()
      modifies `rexmt, `rtt
      ensures Open() && rexmt == 0
    {
      hide Numbers, Counts, Advertised, Buffered;
      rexmt, rtt := 0, 0;
    }

    // Each duplicate acknowledgement stands for a segment that has left the network.
    method Inflate()
      modifies `cwnd
      ensures cwnd == ssthresh + maxSeg * dupAcks
    {
      cwnd := ssthresh + maxSeg * dupAcks;
    }

    // Back to a congestion window of one segment.
    method SlowDown()
      requires maxSeg > 0
      modifies `cwnd, `ssthresh
      ensures cwnd == maxSeg && ssthresh == old(HalfWindow()) * maxSeg
    {
      ssthresh := HalfWindow() * maxSeg;
      cwnd := maxSeg;
    }

    // snd_nxt is not left behind where it was.
    method KeepNext(onxt: nat, ghost on: nat)
      requires Open() && onxt == Wrap(base + on) && u <= on <= x
      modifies `nxt, `n
      ensures Open() && n == Max(old(n), on)
    {
      hide Wrap, SDiff, Advertised, Timers, Buffered;
      Compare(on, n);
      if SeqGt(onxt, nxt) {
        nxt, n := onxt, on;
      }
    }

    // Never more than half of the window in use, but for two segments.
    lemma HalfIs()
      requires maxSeg > 0
      ensures var h := HalfWindow() * maxSeg;
        (2 * h <= Min(wnd, cwnd) < 2 * h + 2 * maxSeg + 2) || (h == 2 * maxSeg && Min(wnd, cwnd) < 6 * maxSeg)
    {
      var half := Min(wnd, cwnd) / 2;
      assert half / maxSeg * maxSeg <= half < half / maxSeg * maxSeg + maxSeg;
      if half / maxSeg < 2 { assert half < 2 * maxSeg; }
    }

    // Half of the window in use, in segments, and at least two.
    function HalfWindow(): nat
      requires maxSeg > 0
      reads `wnd, `cwnd
    {
      Max(Min(wnd, cwnd) / 2 / maxSeg, 2)
    }

    // An acknowledgement of nothing new; the window it carries tells it from an update.
    method OldAck(ack: nat, window: nat, bare: bool) returns (out: seq<Seg>, ghost os: seq<nat>)
      requires Open()
      modifies `nxt, `n, `max, `x, `sentFin, `rtt, `rtSeq, `rexmt, `persist, `rxtShift, `rcvAdv, `e, `ackNow, `cwnd,
               `ssthresh, `dupAcks
      ensures Open() && old(x) <= x && old(e) <= e && AllCarried(out, os, old(e))
      ensures dupAcks == if bare && old(window == wnd && rexmt > 0 && ack == una) then old(dupAcks) + 1 else 0
      ensures dupAcks < REXMT_THRESH ==>
        && out == [] && n == old(n) && x == old(x) && rexmt == old(rexmt) && persist == old(persist)
        && rcvAdv == old(rcvAdv) && ackNow == old(ackNow)
      ensures dupAcks == REXMT_THRESH && old(snd == [] || wnd > 0) ==> FromUna(out, os)
      ensures dupAcks == REXMT_THRESH && snd != [] && old(wnd == 0 && !force && !ackNow && !UpdateDue()) ==>
        persist > 0 && rexmt == 0 && old(n) <= n
    {
      hide Wrap, SDiff, Numbers, Counts, Timers, Advertised, Buffered, AllCarried, UpdateDue;
      NoneCarried();
      out, os := [], [];
      if bare && window == wnd {
        if rexmt == 0 || ack != una {
          dupAcks := 0;
          return;
        }
        dupAcks := dupAcks + 1;
        if dupAcks == REXMT_THRESH {
          out, os := FastRetransmit();
        } else if dupAcks > REXMT_THRESH {
          cwnd := cwnd + maxSeg;
          out, os := Emit();
        }
      } else {
        dupAcks := 0;
      }
    }

    // A segment's acknowledgement, in the states from ESTABLISHED on; finAcked: it covers our FIN.
    method Acknowledge(ack: nat, window: nat, bare: bool) returns (finAcked: bool, out: seq<Seg>, ghost os: seq<nat>)
      requires Open() && ack < M
      modifies `nxt, `n, `max, `x, `sentFin, `rtt, `rtSeq, `rexmt, `persist, `rxtShift, `rcvAdv, `e, `ackNow, `cwnd,
               `ssthresh, `dupAcks,
               `snd, `wnd, `una, `u, `state, `est, `rxtCur
      ensures (state != Closed ==> Open()) && old(x) <= x && old(e) <= e
      ensures AllCarried(out, os, old(e))
      ensures var d := SDiff(ack, old(una));
        if d > 0 && SeqLeq(ack, old(max)) then
          && finAcked == (d > |old(snd)|) && (finAcked ==> u == x) && u == old(u) + d && out == []
          && snd == (if finAcked then [] else old(snd)[d..])
              && state == (if finAcked then AfterFin(old(state)) else old(state))
        else
          !finAcked && u == old(u) && snd == old(snd) && state == old(state) && (d > 0 ==> out != [])
      ensures finAcked ==>
        && (old(state) == FinWait1 ==> state == FinWait2) && (old(state) == Closing ==> state == TimeWait)
        && (old(state) == LastAck ==> state == Closed)
      ensures SDiff(ack, old(una)) > 0 ==> dupAcks == 0
      ensures SDiff(ack, old(una)) > 0 && SeqLeq(ack, old(max)) ==>
        var cw := if old(dupAcks > REXMT_THRESH && cwnd > ssthresh) then old(ssthresh) else old(cwnd);
        ssthresh == old(ssthresh) && cwnd == Min(cw + Increment(cw), MAX_WIN * Pow2(sndScale))
    {
      hide Wrap, SDiff, Numbers, Counts, Timers, Advertised, Buffered, AllCarried, UpdateDue, Stalled, Stalls, Pressing,
           FromUna, FirstFrom, Increment, Pow2;
      finAcked, out, os := false, [], [];
      if SeqLeq(ack, una) {
        out, os := OldAck(ack, window, bare);
        return;
      }
      if dupAcks > REXMT_THRESH && cwnd > ssthresh {
        cwnd := ssthresh;
      }
      dupAcks := 0;
      if SeqGt(ack, max) {
        ackNow := true;
        out, os := Emit();
        return;
      }
      finAcked := NewAck(ack);
      NoneCarried();
    }

    // Header prediction: a pure acknowledgement of outstanding data while nothing is being resent.
    method PredictedAck(ack: nat)
      requires Open() && state == Established && ack < M && SeqGt(ack, una) && SeqLeq(ack, max) && nxt == max
      modifies `snd, `una, `u, `rexmt, `est, `rtt, `rxtShift, `rxtCur
      ensures Open() && u == old(u) + SDiff(ack, old(una)) && SDiff(ack, old(una)) <= |old(snd)|
      ensures snd == old(snd)[SDiff(ack, old(una))..] && (if u == x then rexmt == 0 else persist > 0 || rexmt == rxtCur)
    {
      hide Wrap, SDiff, Numbers, Counts, Timers, Advertised, Buffered;
      Timing(ack);
      AckPlace(ack);
      Predicted();
      var acked := SDiff(ack, una);
      DropFront(ack, acked);
      LeftOver();
      if una == max {
        StopRexmt();
      } else {
        Rearm();
      }
    }

    lemma Predicted()
      requires Open() && state == Established && nxt == max
      ensures !sentFin && n == x
    {
      hide Wrap, SDiff;
      Offsets();
    }

    lemma LeftOver()
      requires Numbers() && Counts()
      ensures u <= x && (una == max <==> u == x)
    {
      hide Wrap, SDiff;
      Offsets();
    }

    method StopRexmt()
      requires Sound() && state != Closed
      modifies `rexmt
      ensures Open() && rexmt == 0
    {
      hide Numbers, Counts, Advertised, Buffered;
      rexmt := 0;
    }

    method DropFront(ack: nat, d: nat)
      requires Open() && !sentFin && n == x && ack == Wrap(base + (u + d)) && d <= x - u && d <= |snd|
      modifies `snd, `una, `u
      ensures Sound() && state != Closed && snd == old(snd)[d..] && u == old(u) + d && una == ack
    {
      hide Wrap, SDiff, Advertised, Timers;
      snd := snd[d..];
      una := ack;
      u := u + d;
    }

    method Rearm()
      requires Sound() && state != Closed && u < x
      modifies `rexmt
      ensures Open() && (persist > 0 || rexmt == rxtCur)
    {
      hide Numbers, Counts, Advertised, Buffered;
      if persist == 0 {
        rexmt := rxtCur;
      }
    }

    // A segment with an acknowledgement: its window counts if the segment is newer than the one that
    // gave the window in force.
    method UpdateWindow(seq_: nat, ack: nat, window: nat)
      requires Open()
      modifies `wnd, `maxWnd, `sndWl1, `sndWl2
      ensures Open()
      ensures if old(Newer(sndWl1, sndWl2, wnd, seq_, ack, window)) then
                wnd == window && sndWl1 == seq_ && sndWl2 == ack && maxWnd == Max(old(maxWnd), window)
              else
                wnd == old(wnd) && sndWl1 == old(sndWl1) && sndWl2 == old(sndWl2) && maxWnd == old(maxWnd)
    {
      hide Numbers, Counts, Timers, Advertised, Buffered, Running, SeqLt;
      if SeqLt(sndWl1, seq_)
          || (sndWl1 == seq_ && (SeqLt(sndWl2, ack) || (sndWl2 == ack && window > wnd))) {
        wnd, sndWl1, sndWl2 := window, seq_, ack;
        if wnd > maxWnd {
          maxWnd := wnd;
        }
      }
    }

    // ---- timers ------------------------------------------------------------------------------------------

    // The retransmission timer has gone off: backs off and sends one segment again, or gives up.
    method RexmtTimeout() returns (out: seq<Seg>, ghost os: seq<nat>)
      requires Open() && rexmt == 0 && persist == 0 && u < x
      modifies `nxt, `n, `max, `x, `sentFin, `rtt, `rtSeq, `rexmt, `persist, `rxtShift, `rcvAdv, `e, `ackNow, `cwnd,
               `ssthresh, `dupAcks, `state, `est, `rxtCur
      ensures state == if old(rxtShift) == MAX_RXTSHIFT then Closed else old(state)
      ensures state != Closed ==> Open() && old(x) <= x && old(e) <= e && AllCarried(out, os, old(e))
      ensures state != Closed && old(snd == [] || wnd > 0) ==> FromUna(out, os)
      ensures state != Closed ==>
        && rxtCur == Interval(old(est), old(rxtShift) + 1, rttMin) && RexmtVal(est) == old(RexmtVal(est))
        && maxSeg > 0 && ssthresh == old(HalfWindow()) * maxSeg && cwnd == maxSeg && dupAcks == 0
    {
      hide Wrap, SDiff, Numbers, Counts, Advertised, Buffered, Timers, AllCarried, HalfWindow, Interval, UpdateDue,
           Pressing, Stalls, FromUna, Running, Shut, Cwnd;
      out, os := [], [];
      NoneCarried();
      var lost := ShiftUp();
      if lost {
        state := Closed;         // tcp_drop
        return;
      }
      out, os := Resend();
    }

    // Backs off and sends one segment again.
    method Resend() returns (out: seq<Seg>, ghost os: seq<nat>)
      requires Open() && persist == 0 && u < x
      modifies `nxt, `n, `max, `x, `sentFin, `rtt, `rtSeq, `rexmt, `persist, `rxtShift, `rcvAdv, `e, `ackNow, `cwnd,
               `ssthresh, `dupAcks, `est, `rxtCur
      ensures Open() && old(x) <= x && old(e) <= e && AllCarried(out, os, old(e))
      ensures old(snd == [] || wnd > 0) ==> FromUna(out, os)
      ensures rxtCur == Interval(old(est), old(rxtShift), rttMin) && RexmtVal(est) == old(RexmtVal(est))
      ensures maxSeg > 0 && ssthresh == old(HalfWindow()) * maxSeg && cwnd == maxSeg && dupAcks == 0
    {
      hide Wrap, SDiff, Numbers, Counts, Advertised, Buffered, Timers, AllCarried, HalfWindow, Interval, UpdateDue,
           Pressing, Stalls, FromUna, Running, Shut, Cwnd, FirstFrom, HasData;
      ClobberKeeps(est);
      BackOff();
      StartOver();
      Pulled();
      out, os := Emit();
    }

    // Slow start from the first byte that is not acknowledged.
    method StartOver()
      requires Open()
      modifies `nxt, `n, `rtt, `cwnd, `ssthresh, `dupAcks
      ensures Open() && n == u && cwnd == maxSeg && ssthresh == old(HalfWindow()) * maxSeg && rtt == dupAcks == 0
    {
      hide Wrap, SDiff, Numbers, Counts, Advertised, Buffered, HalfWindow;
      rtt := 0;
      SlowDown();
      dupAcks := 0;
      PullBack();
    }

    // Counts the timeouts in a row; true when there have been enough of them.
    method ShiftUp() returns (lost: bool)
      requires Open()
      modifies `rxtShift
      ensures Open() && lost == (old(rxtShift) == MAX_RXTSHIFT)
          && rxtShift == (if lost then MAX_RXTSHIFT else old(rxtShift) + 1)
    {
      hide Numbers, Counts, Advertised, Buffered;
      rxtShift := rxtShift + 1;
      lost := rxtShift > MAX_RXTSHIFT;
      if lost {
        rxtShift := MAX_RXTSHIFT;
      }
    }

    // A longer retransmission interval; after a few of them the estimate itself is given up.
    method BackOff()
      requires Open() && persist == 0 && u < x
      modifies `rxtCur, `rexmt, `est
      ensures Open() && rexmt == rxtCur == Interval(old(est), rxtShift, rttMin) && maxSeg > 0
      ensures est == if rxtShift > MAX_RXTSHIFT / 4 then Clobber(old(est)) else old(est)
    {
      hide Numbers, Counts, Advertised, Buffered;
      rxtCur := RangeSet(RexmtVal(est) * BACKOFF[rxtShift], rttMin, REXMT_MAX);
      rexmt := rxtCur;
      if rxtShift > MAX_RXTSHIFT / 4 {
        est := Clobber(est);
      }
    }

    // The persist timer has gone off: forces out the first byte that is not
    // acknowledged, but only if snd_nxt stands there.
    method PersistTimeout(maxPersistIdle: nat) returns (out: seq<Seg>, ghost os: seq<nat>)
      requires Open() && rexmt == 0 && persist == 0 && !force
      modifies `nxt, `n, `max, `x, `sentFin, `rtt, `rtSeq, `rexmt, `persist, `rxtShift, `rcvAdv, `e, `ackNow, `cwnd,
               `state, `force
      ensures state ==
        if old(rxtShift) == MAX_RXTSHIFT && (idle >= maxPersistIdle || idle >= RexmtVal(est) * TOT_BACKOFF) then Closed
        else old(state)
      ensures state != Closed ==> Open() && !force && old(x) <= x && old(e) <= e && AllCarried(out, os, old(e))
      ensures state != Closed && snd != [] ==> (FromUna(out, os) <==> old(n) == u)
    {
      hide Wrap, SDiff, Numbers, Counts, Advertised, Buffered, AllCarried, UpdateDue, Stalled, Pressing;
      out, os := [], [];
      if rxtShift == MAX_RXTSHIFT && (idle >= maxPersistIdle || idle >= RexmtVal(est) * TOT_BACKOFF) {
        state := Closed;         // tcp_drop
        return;
      }
      SetPersist();
      force := true;
      Forced();
      out, os := Emit();
      force := false;
    }

    lemma Forced()
      requires Open() && force
      ensures snd != [] ==> forall cw, wasIdle :: Pressing(cw, wasIdle) <==> n == u
    {
    }

    method TickRexmt() returns (fired: bool)
      requires Open()
      modifies `rexmt
      ensures Open() && fired == (old(rexmt) == 1) && rexmt == Max(old(rexmt) - 1, 0)
      ensures fired ==> persist == 0 && u < x
    {
      hide Numbers, Counts, Advertised, Buffered;
      fired := false;
      if rexmt > 0 {
        rexmt := rexmt - 1;
        fired := rexmt == 0;
      }
    }

    method TickPersist() returns (fired: bool)
      requires Open()
      modifies `persist
      ensures Open() && fired == (old(persist) == 1) && persist == Max(old(persist) - 1, 0) && (fired ==> rexmt == 0)
    {
      hide Numbers, Counts, Advertised, Buffered;
      fired := false;
      if persist > 0 {
        persist := persist - 1;
        fired := persist == 0;
      }
    }

    // The persist timer's turn in a tick.
    method SlowPersist(maxPersistIdle: nat, first: seq<Seg>, ghost firstOs: seq<nat>, ghost edge: int)
      returns (out: seq<Seg>, ghost os: seq<nat>)
      requires Open() && !force && AllCarried(first, firstOs, edge) && edge <= e
      modifies `nxt, `n, `max, `x, `sentFin, `rtt, `rtSeq, `rexmt, `persist, `rxtShift, `rcvAdv, `e, `ackNow, `cwnd,
               `state, `force
      ensures state == Closed || state == old(state)
      ensures state != Closed ==> Open() && !force && old(x) <= x && old(e) <= e && AllCarried(out, os, edge)
      ensures first <= out && firstOs <= os
    {
      hide Wrap, SDiff, Numbers, Counts, Advertised, Buffered, Timers, AllCarried;
      out, os := first, firstOs;
      var fired := TickPersist();
      if fired {
        ghost var later := e;
        var more;
        ghost var moreOs;
        more, moreOs := PersistTimeout(maxPersistIdle);
        if state == Closed {
          return;
        }
        AlsoCarried(out, os, edge, more, moreOs, later);
        out, os := out + more, os + moreOs;
      }
    }

    // The measured times go on.
    method CountUp()
      requires Open()
      modifies `idle, `rtt
      ensures Open()
    {
      idle := idle + 1;
      if rtt > 0 {
        rtt := rtt + 1;
      }
    }

    // tcp_slowtimo for these two timers.
    method SlowTick(maxPersistIdle: nat) returns (out: seq<Seg>, ghost os: seq<nat>)
      requires Open() && !force
      modifies `nxt, `n, `max, `x, `sentFin, `rtt, `rtSeq, `rexmt, `persist, `rxtShift, `rcvAdv, `e, `ackNow, `cwnd,
               `ssthresh, `dupAcks, `state, `est, `rxtCur, `force, `idle
      ensures state == Closed || state == old(state)
      ensures state != Closed ==> Open() && !force && old(x) <= x && old(e) <= e
      ensures state != Closed ==> AllCarried(out, os, old(e))
      ensures state != Closed && old(rexmt == 1 && (snd == [] || wnd > 0)) ==> FromUna(out, os)
    {
      hide Wrap, SDiff, Numbers, Counts, Advertised, Buffered, Timers, AllCarried, HalfWindow;
      out, os := [], [];
      NoneCarried();
      var fired := TickRexmt();
      if fired {
        out, os := RexmtTimeout();
        if state == Closed {
          return;
        }
      }
      out, os := SlowPersist(maxPersistIdle, out, os, old(e));
      if state != Closed {
        CountUp();
      }
    }

    // ---- the user and the peer ---------------------------------------------------------------------------

    // Our SYN has just been acknowledged; nothing has been written yet.  iss and irs: the numbers of the
    // first byte each way; advertised: the window that our SYN has offered; est, rxtCur: from its timing.
    constructor (iss: nat, irs: nat, window: nat, maxSeg: nat, optLen: nat, rttMin: nat, sndScale: nat, rcvScale: nat,
                 rcvHiwat: nat, advertised: nat, est: Rtt, rxtCur: nat)
      requires optLen < maxSeg && 1 <= rttMin <= rxtCur <= REXMT_MAX && rcvScale <= 14 && iss < M && irs < M
      requires advertised <= MAX_WIN
      ensures Open() && state == Established && snd == stream == [] && !sentFin && !force && !ackNow && !noDelay
      ensures u == n == x == r == 0 && e == advertised && base == iss && rcvBase == irs
      ensures una == nxt == max == iss && rcvNxt == irs && rcvAdv == Wrap(irs + advertised) && rcvSpace == rcvHiwat
      ensures wnd == maxWnd == window && cwnd == maxSeg && ssthresh == MAX_WIN * 0x4000
      ensures dupAcks == rexmt == persist == rxtShift == rtt == idle == 0 && this.rxtCur == rxtCur && this.est == est
      ensures sndWl1 == Wrap(irs - 1) && sndWl2 == 0
      ensures this.maxSeg == maxSeg && this.optLen == optLen && this.rttMin == rttMin && this.rcvHiwat == rcvHiwat
      ensures this.sndScale == sndScale && this.rcvScale == rcvScale
    {
      state, una, nxt, max, snd := Established, iss, iss, iss, [];
      sentFin, ackNow, noDelay, force := false, false, false, false;
      wnd, cwnd, ssthresh, maxWnd, dupAcks := window, maxSeg, MAX_WIN * 0x4000, window, 0;
      sndWl1, sndWl2 := Wrap(irs - 1), 0;
      rexmt, persist, rxtShift, this.rxtCur, this.est, rtt, rtSeq, idle := 0, 0, 0, rxtCur, est, 0, 0, 0;
      rcvNxt, rcvAdv, rcvSpace := irs, Wrap(irs + advertised), rcvHiwat;
      this.maxSeg, this.optLen, this.rttMin := maxSeg, optLen, rttMin;
      this.sndScale, this.rcvScale, this.rcvHiwat := sndScale, rcvScale, rcvHiwat;
      base, rcvBase, stream, u, n, x, r, e := iss, irs, [], 0, 0, 0, 0, advertised;
      new;
      BoundPow(rcvScale);
    }

    // The user writes as long as the connection has not been closed on this side.
    method Append(data: seq<nat>)
      requires Open() && (state == Established || state == CloseWait) && |snd| + |data| <= MAX_BUFFER
      modifies `snd, `stream
      ensures Open() && stream == old(stream) + data && snd == old(snd) + data
    {
      hide Wrap, Timers, Advertised;
      snd := snd + data;
      stream := stream + data;
    }

    // tcp_usrclosed
    method Close()
      requires Open()
      modifies `state
      ensures Open()
      ensures (old(state) == Established ==> state == FinWait1) && (old(state) == CloseWait ==> state == LastAck)
      ensures old(state) != Established && old(state) != CloseWait ==> state == old(state)
    {
      hide Wrap, Timers, Advertised, Numbers;
      if state == Established {
        state := FinWait1;
      } else if state == CloseWait {
        state := LastAck;
      }
    }

    // The peer's FIN, which has been taken in.
    method PeerFin()
      requires Open()
      modifies `state, `rexmt, `persist
      ensures Open()
      ensures (old(state) == Established ==> state == CloseWait) && (old(state) == FinWait1 ==> state == Closing)
      ensures old(state) == FinWait2 ==> state == TimeWait && rexmt == persist == 0
      ensures old(state) != Established && old(state) != FinWait1 && old(state) != FinWait2 ==> state == old(state)
    {
      hide Wrap, Advertised, Numbers;
      if state == Established {
        state := CloseWait;
      } else if state == FinWait1 {
        state := Closing;
      } else if state == FinWait2 {
        state := TimeWait;
        rexmt, persist := 0, 0;      // tcp_canceltimers
      }
    }

    // The receive window for the next segment: no byte that was advertised is outside it.
    method ReceiveWindow() returns (w: nat)
      requires Open()
      ensures w == Max(Max(rcvSpace, 0), e - r)
    {
      hide Wrap, SDiff, Numbers, Counts, Timers, Buffered;
      BoundPow(rcvScale);
      DiffIs(rcvBase, e, r);
      w := Max(Max(rcvSpace, 0), SDiff(rcvAdv, rcvNxt));
    }

    // rcv_nxt moves on; space is what is left in the receive buffer.
    method Receive(k: nat, space: int)
      requires Open() && r + k <= e + MAX_BUFFER
      modifies `rcvNxt, `r, `rcvSpace
      ensures Open() && r == old(r) + k && e == old(e)
    {
      hide Wrap, SDiff, Numbers, Counts, Timers, Buffered;
      WrapAdd(rcvBase + r, k);
      rcvNxt, r, rcvSpace := Wrap(rcvNxt + k), r + k, space;
    }
  }

  predicate Newer(wl1: nat, wl2: nat, wnd: nat, seq_: nat, ack: nat, window: nat) {
    SeqLt(wl1, seq_) || (wl1 == seq_ && (SeqLt(wl2, ack) || (wl2 == ack && window > wnd)))
  }

  lemma LessTimes(a: nat, b: nat, m: nat, c: nat)
    requires a * m <= c && b * c <= m * m && m > 0
    ensures a * b <= m
  {
    assert b * (a * m) <= b * c;
    assert b * (a * m) == (a * b) * m;
    assert (a * b - m) * m == (a * b) * m - m * m <= 0;
  }

  function AfterFin(s: State): State {
    match s
    case FinWait1 => FinWait2
    case Closing => TimeWait
    case LastAck => Closed
    case _ => s
  }

  lemma SDiffBack(y: nat, z: nat)
    requires y < M && z < M
    ensures Wrap(z + SDiff(y, z)) == y
  {
    var d := (y - z) % M;
    assert d == y - z || d == y - z + M;
  }

  function Max(y: int, z: int): int { if y < z then z else y }

  lemma {:induction false} BoundPow(k: nat)
    requires k <= 14
    ensures 1 <= Pow2(k) <= 0x4000
  {
    PowMono(k, 14);
    assert Pow2(14) == 0x4000 by { assert Pow2(7) == 128; assert Pow2(10) == 1024; }
  }

  lemma {:induction false} PowMono(j: nat, k: nat)
    requires j <= k
    ensures 1 <= Pow2(j) <= Pow2(k)
    decreases k
  {
    if j < k {
      PowMono(j, k - 1);
    } else if k > 0 {
      PowMono(k - 1, k - 1);
    }
  }

  lemma SDiffSame(y: nat)
    ensures SDiff(y, y) == 0
  {
  }

  function Pow2(k: nat): nat { if k == 0 then 1 else 2 * Pow2(k - 1) }
}
