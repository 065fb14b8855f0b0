// Runs of packets over a link that loses nothing.

module SlRuns {
  import opened SlHeaders
  import opened Words
  import opened SlSlots

  predicate PacketOk(p: Packet) { HeaderOk(p.h) && p.h.proto == TCP && Bytes(p.data) }

  predicate SavedOk(o: Option<Header>) {
    o.Some? ==> HeaderOk(o.value) && Compressible(o.value) && o.value.proto == TCP
  }

  // Both ends hold the same header in every slot, but for its checksum, and mean the same slot when
  // its number is left out.
  ghost predicate Synced(s: Sender, d: Receiver) {
    && SenderOk(s) && |d.saved| == MAX_STATES
    && (forall i :: 0 <= i < MAX_STATES ==> SavedOk(s.saved[i]) && SameSlot(s.saved[i], d.saved[i]))
    && d.lastRecv == s.lastXmit
    && (s.lastXmit != NO_SLOT ==> s.lastXmit < MAX_STATES && !d.toss && s.saved[s.lastXmit].Some?)
  }

  predicate SameSlot(a: Option<Header>, b: Option<Header>) {
    match a
    case None => b == None
    case Some(h) => b == Some(h.(sum := 0))
  }

  function FreshReceiver(): Receiver { Receiver(seq(MAX_STATES, _ => None), NO_SLOT, true) }

  lemma FreshSynced(s: Sender)
    requires IsInitial(s)
    ensures Synced(s, FreshReceiver())
  {
    InitialOk(s);
  }

  // ---- one packet ----------------------------------------------------------------------------------

  // Exactly when a packet that goes compressed against the saved header old_ comes out as it went in.
  predicate Faithful(old_: Header, p: Packet) {
    && p.h.x2 == old_.x2 && p.h.flags.high == old_.flags.high
    && p.h.sum == IpSum(p.h) && p.h.len == (HeaderLen(p.h) + |p.data|) % 0x10000
    && !(Special(old_, p.h) && old_.flags.urg)
  }

  function UsedSlot(s: Sender, p: Packet): nat
    requires SenderOk(s)
  {
    s.order[Search(s.order, s.saved, p.h, 0)]
  }

  predicate GoesThrough(s: Sender, p: Packet, mlen: nat)
    requires SenderOk(s)
  {
    var slot := s.saved[UsedSlot(s, p)];
    Bypass(p, mlen) || SlotDelta(slot, p.h).None? || Faithful(slot.value, p)
  }

  lemma RebuiltFaithful(old_: Header, p: Packet)
    requires HeaderOk(p.h) && HeaderOk(old_)
    ensures var r := Rebuilt(old_, p.h, |p.data|); r.(sum := IpSum(r)) == p.h <==> Faithful(old_, p)
    ensures Faithful(old_, p) ==> Rebuilt(old_, p.h, |p.data|) == p.h.(sum := 0)
  {
    hide IpSum, HeaderOk, HeaderLen, Sub16, Sub32;
    var r := Rebuilt(old_, p.h, |p.data|);
    SumIgnored(p.h, 0);
    if Special(old_, p.h) { assert !p.h.flags.urg; }
  }

  lemma SumIgnored(h: Header, x: nat)
    ensures IpSum(h.(sum := x)) == IpSum(h)
  {
  }

  // What the far end makes of a compressed packet.
  lemma CompressedThere(d: Receiver, old_: Header, e: Delta, i: nat, explicit: bool, p: Packet)
    requires |d.saved| == MAX_STATES && i < MAX_STATES && d.saved[i] == Some(old_.(sum := 0)) && PacketOk(p)
    requires HeaderOk(old_) && Compressible(old_) && Compressible(p.h) && SlotDelta(Some(old_), p.h) == Some(e)
    requires !explicit ==> d.lastRecv == i && !d.toss
    ensures var r := Rebuilt(old_, p.h, |p.data|);
      ReceiveStep(d, Compressed(CompressedBytes(e, i, explicit, p)))
      == (Receiver(d.saved[i := Some(r)], i, false), Some(Packet(r.(sum := IpSum(r)), p.data)))
  {
    hide Encode, Decode, HeaderOk, Rebuilt, IpSum, MaskByte, ByteMask;
    var m := e.mask.(c := explicit);
    var bytes := CompressedBytes(e, i, explicit, p);
    var tail := [p.h.tcpSum / 256, p.h.tcpSum % 256] + (e.deltas + p.data);
    MaskRoundTrip(m);
    assert bytes[if explicit then 2 else 1..] == tail;
    assert tail[2..] == e.deltas + p.data;
    DecodeEncode(old_, p.h, explicit, p.data);
  }

  // One packet over a synchronised link: it comes out unchanged just when it goes through, and
  // then the two ends stay synchronised.
  lemma OnePacket(s: Sender, d: Receiver, p: Packet, mlen: nat, cid: bool)
    requires Synced(s, d) && PacketOk(p)
    ensures var c := CompressStep(s, p, mlen, cid);
      var r := ReceiveStep(d, c.1);
      && r.1.Some? && (r.1 == Some(p) <==> GoesThrough(s, p, mlen))
      && (r.1 == Some(p) ==> Synced(c.0, r.0))
  {
    hide Encode, Decode, HeaderOk, Rebuilt, IpSum, Faithful, DecodeSlot, CompressedBytes;
    if !Bypass(p, mlen) {
      var i := UsedSlot(s, p);
      Moved(s.order, Search(s.order, s.saved, p.h, 0));
      match SlotDelta(s.saved[i], p.h)
      case None =>
      case Some(e) =>
        var old_ := s.saved[i].value;
        CompressedThere(d, old_, e, i, !cid || s.lastXmit != i, p);
        RebuiltFaithful(old_, p);
    }
  }

  // ---- runs --------------------------------------------------------------------------------------------

  // What the round trip asks of a packet that may be compressed.
  predicate WellFormed(p: Packet) {
    PacketOk(p) && (Compressible(p.h) ==>
      && p.h.x2 == 0 && p.h.flags.high == 0 && p.h.sum == IpSum(p.h) && p.h.len == HeaderLen(p.h) + |p.data|
      && (p.h.flags.urg <==> p.h.urp != 0))
  }

  predicate WellSaved(s: Sender) {
    forall i :: 0 <= i < |s.saved| && s.saved[i].Some? ==> CleanHeader(s.saved[i].value)
  }

  predicate CleanHeader(h: Header) { h.x2 == 0 && h.flags.high == 0 && (h.flags.urg <==> h.urp != 0) }

  lemma CleanFaithful(old_: Header, p: Packet)
    requires CleanHeader(old_) && WellFormed(p) && Compressible(p.h) && Encode(old_, p.h).Some?
    ensures Faithful(old_, p)
  {
    hide IpSum, ChangeBytes, SameFixed, Repeated;
  }

  lemma WellFormedGoes(s: Sender, d: Receiver, p: Packet, mlen: nat, cid: bool)
    requires Synced(s, d) && WellSaved(s) && WellFormed(p)
    ensures GoesThrough(s, p, mlen) && WellSaved(CompressStep(s, p, mlen, cid).0)
  {
    hide IpSum, Encode, HeaderOk, Faithful, CompressedBytes;
    if !Bypass(p, mlen) {
      var i := UsedSlot(s, p);
      if SlotDelta(s.saved[i], p.h).Some? {
        CleanFaithful(s.saved[i].value, p);
      }
    }
  }

  datatype Job = Job(p: Packet, mlen: nat, cid: bool)

  function Run(s: Sender, d: Receiver, jobs: seq<Job>): (Sender, Receiver, seq<Option<Packet>>)
    requires SenderOk(s) && |d.saved| == MAX_STATES
    decreases |jobs|
  {
    if jobs == [] then (s, d, []) else
      var c := CompressStep(s, jobs[0].p, jobs[0].mlen, jobs[0].cid);
      var r := ReceiveStep(d, c.1);
      assert SenderOk(c.0) by {
        if !Bypass(jobs[0].p, jobs[0].mlen) { Moved(s.order, Search(s.order, s.saved, jobs[0].p.h, 0)); }
      }
      var rest := Run(c.0, r.0, jobs[1..]);
      (rest.0, rest.1, [r.1] + rest.2)
  }

  // Every packet of a run comes out as it went in, and both ends end up agreeing on every slot.
  lemma {:induction false} LosslessRun(s: Sender, d: Receiver, jobs: seq<Job>)
    requires Synced(s, d) && WellSaved(s) && SlotsOk(s) && forall k :: 0 <= k < |jobs| ==> WellFormed(jobs[k].p)
    ensures var r := Run(s, d, jobs);
      && |r.2| == |jobs| && (forall k :: 0 <= k < |jobs| ==> r.2[k] == Some(jobs[k].p))
      && Synced(r.0, r.1) && SlotsOk(r.0)
    decreases |jobs|
  {
    hide CompressStep, ReceiveStep, WellFormed, SlotsOk, WellSaved, GoesThrough;
    if jobs != [] {
      var j := jobs[0];
      WellFormedGoes(s, d, j.p, j.mlen, j.cid);
      assert WellFormed(j.p) ==> PacketOk(j.p) by { WellFormedOk(j.p); }
      OnePacket(s, d, j.p, j.mlen, j.cid);
      SlotsStay(s, j.p, j.mlen, j.cid);
      var c := CompressStep(s, j.p, j.mlen, j.cid);
      LosslessRun(c.0, ReceiveStep(d, c.1).0, jobs[1..]);
    }
  }

  lemma WellFormedOk(p: Packet)
    requires WellFormed(p)
    ensures PacketOk(p)
  {
  }

  // From the start.
  lemma LosslessLink(s: Sender, jobs: seq<Job>)
    requires IsInitial(s) && forall k :: 0 <= k < |jobs| ==> WellFormed(jobs[k].p)
    ensures SenderOk(s)
    ensures var r := Run(s, FreshReceiver(), jobs);
      && |r.2| == |jobs| && (forall k :: 0 <= k < |jobs| ==> r.2[k] == Some(jobs[k].p)) && Synced(r.0, r.1)
  {
    InitialOk(s);
    FreshSynced(s);
    LosslessRun(s, FreshReceiver(), jobs);
  }

  // ---- the urgent flag ----------------------------------------------------------------------------------

  function Sample(id: nat, seqNo: nat, urg: bool): Header {
    var h := Header(4, 0, 41, id, 0, 64, TCP, 0, 1, 2, [], 3, seqNo, 9, 0,
        Flags(false, false, false, false, true, urg, 0), 100, 77, 5, []);
    h.(sum := IpSum(h))
  }

  lemma SampleSum(id: nat, seqNo: nat, urg: bool)
    requires id < 0x10000
    ensures Sample(id, seqNo, urg).sum == IpSum(Sample(id, seqNo, urg)) < 0x10000
  {
  }

  // One byte of urgent data, then one byte that is not, with the urgent pointer left as it was: the
  // second comes out with URG still set.
  lemma UrgentFlagStays()
    ensures var a, b := Sample(1, 50, true), Packet(Sample(2, 51, false), [7]);
      && PacketOk(b) && Compressible(a) && Encode(a, b.h).Some? && Streamed(a, b.h)
      && b.h.sum == IpSum(b.h) && b.h.len == HeaderLen(b.h) + |b.data|
      && Rebuilt(a, b.h, 1).flags == b.h.flags.(urg := true) && !Faithful(a, b)
  {
    hide IpSum;
    var a, b := Sample(1, 50, true), Packet(Sample(2, 51, false), [7]);
    SampleSum(1, 50, true);
    SampleSum(2, 51, false);
    assert Sub32(b.h.seqNo, a.seqNo) == 1 && Sub32(b.h.ackNo, a.ackNo) == 0 && Sub16(b.h.win, a.win) == 0;
  }

  // ---- least recently used ---------------------------------------------------------------------------

  // When slot i was used last; the slots never used count from the highest one down.
  function LastUse(uses: seq<nat>, i: nat): int {
    if uses == [] then i - MAX_STATES
    else if uses[|uses| - 1] == i then |uses| - 1 else LastUse(uses[..|uses| - 1], i)
  }

  ghost predicate InOrderOfUse(order: seq<nat>, uses: seq<nat>) {
    forall a, b :: 0 <= a < b < |order| ==> LastUse(uses, order[a]) > LastUse(uses, order[b])
  }

  lemma FreshOrder(order: seq<nat>)
    requires order == seq(MAX_STATES, i requires 0 <= i < MAX_STATES => MAX_STATES - 1 - i)
    ensures InOrderOfUse(order, []) && IsOrder(order) && SavedOk(None)
  {
  }

  lemma {:induction false} UsedBefore(uses: seq<nat>, i: nat)
    requires i < MAX_STATES
    ensures LastUse(uses, i) < |uses|
  {
    if uses != [] { UsedBefore(uses[..|uses| - 1], i); }
  }

  lemma OrderStays(order: seq<nat>, uses: seq<nat>, k: nat)
    requires IsOrder(order) && InOrderOfUse(order, uses) && k < |order|
    ensures InOrderOfUse(MoveToFront(order, k), uses + [order[k]])
  {
    var q, us := MoveToFront(order, k), uses + [order[k]];
    assert us[..|us| - 1] == uses;
    forall j | 0 <= j < |q|
      ensures q[j] == order[if j == 0 then k else if j <= k then j - 1 else j]
      ensures LastUse(us, q[j]) == if j == 0 then |uses| else LastUse(uses, q[j])
      ensures LastUse(uses, q[j]) < |uses|
    {
      UsedBefore(uses, q[j]);
    }
  }
}
