// The connection slots on the two ends of the link, as values: what one packet does to them, and
// that the far end gets back every packet.

module SlSlots {
  import opened SlHeaders
  import opened Words

  datatype Frame = Ip(p: Packet) | Uncompressed(p: Packet) | Compressed(bytes: seq<nat>)

  // order lists the slots from the most to the least recently used; a slot that was never used
  // is all zeros in the source.
  datatype Sender = Sender(order: seq<nat>, saved: seq<Option<Header>>, lastXmit: nat)

  datatype Receiver = Receiver(saved: seq<Option<Header>>, lastRecv: nat, toss: bool)

  function Tuple(s: Option<Header>): (nat, nat, nat) {
    match s
    case None => (0, 0, 0)
    case Some(g) => (g.src, g.dst, g.ports)
  }

  predicate SameConn(s: Option<Header>, h: Header) { Tuple(s) == (h.src, h.dst, h.ports) }

  // The slot search: the first slot from position k on that holds the packet's connection, or
  // else the last one.
  function Search(order: seq<nat>, saved: seq<Option<Header>>, h: Header, k: nat): (j: nat)
    requires k < |order| && forall i :: 0 <= i < |order| ==> order[i] < |saved|
    ensures k <= j < |order| && forall i :: k <= i < j ==> !SameConn(saved[order[i]], h)
    ensures SameConn(saved[order[j]], h) || j == |order| - 1
    decreases |order| - k
  {
    if SameConn(saved[order[k]], h) || k == |order| - 1 then k else Search(order, saved, h, k + 1)
  }

  function MoveToFront(order: seq<nat>, k: nat): seq<nat>
    requires k < |order|
  {
    [order[k]] + order[..k] + order[k + 1..]
  }

  predicate IsOrder(order: seq<nat>) {
    && |order| == MAX_STATES && (forall i :: 0 <= i < |order| ==> order[i] < MAX_STATES)
    && (forall i, j :: 0 <= i < j < |order| ==> order[i] != order[j])
  }

  predicate SenderOk(s: Sender) { IsOrder(s.order) && |s.saved| == MAX_STATES }

  predicate Bypass(p: Packet, mlen: nat) { mlen < 40 || !Compressible(p.h) }

  // The compressed header against what is saved in slot i; None to send the packet uncompressed.
  function SlotDelta(slot: Option<Header>, h: Header): Option<Delta> {
    if SameConn(slot, h) && slot.Some? then Encode(slot.value, h) else None
  }

  function CompressedBytes(e: Delta, slot: nat, explicit: bool, p: Packet): seq<nat> {
    [MaskByte(e.mask.(c := explicit))] + (if explicit then [slot] else [])
    + [p.h.tcpSum / 256, p.h.tcpSum % 256] + e.deltas + p.data
  }

  // sl_compress_tcp for a packet whose first mlen bytes are in one mbuf; cid allows the slot number
  // to be left out.
  function CompressStep(s: Sender, p: Packet, mlen: nat, cid: bool): (Sender, Frame)
    requires SenderOk(s)
  {
    if Bypass(p, mlen) then (s, Ip(p)) else
      var k := Search(s.order, s.saved, p.h, 0);
      var i := s.order[k];
      var s' := Sender(MoveToFront(s.order, k), s.saved[i := Some(p.h)], i);
      match SlotDelta(s.saved[i], p.h)
      case None => (s', Uncompressed(p.(h := p.h.(proto := i))))
      case Some(e) => (s', Compressed(CompressedBytes(e, i, !cid || s.lastXmit != i, p)))
  }

  function Bad(d: Receiver): (Receiver, Option<Packet>) { (d.(toss := true), None) }

  function DecodeSlot(d: Receiver, m: Mask, bs: seq<nat>): (Receiver, Option<Packet>)
    requires |d.saved| == MAX_STATES
  {
    if d.lastRecv >= MAX_STATES || d.saved[d.lastRecv].None? || |bs| < 2 then Bad(d) else
      match Decode(d.saved[d.lastRecv].value, m, 256 * bs[0] + bs[1], bs[2..])
      case None => Bad(d)
      case Some(r) => (d.(saved := d.saved[d.lastRecv := Some(r.0)]), Some(Packet(r.0.(sum := IpSum(r.0)), r.1)))
  }

  // sl_uncompress_tcp, and a packet that goes past it.
  function ReceiveStep(d: Receiver, f: Frame): (Receiver, Option<Packet>)
    requires |d.saved| == MAX_STATES
  {
    match f
    case Ip(p) => (d, Some(p))
    case Uncompressed(p) =>
      if p.h.proto >= MAX_STATES then Bad(d) else
        var h := p.h.(proto := TCP);
        (Receiver(d.saved[p.h.proto := Some(h.(sum := 0))], p.h.proto, false), Some(p.(h := h)))
    case Compressed(bytes) =>
      if bytes == [] then Bad(d) else
        var m := ByteMask(bytes[0]);
        if m.c then
          if |bytes| < 2 || bytes[1] >= MAX_STATES then Bad(d)
          else DecodeSlot(d.(lastRecv := bytes[1], toss := false), m, bytes[2..])
        else if d.toss then (d, None)
        else DecodeSlot(d, m, bytes[1..])
  }

  // ---- the slots themselves --------------------------------------------------------------------

  lemma Moved(order: seq<nat>, k: nat)
    requires IsOrder(order) && k < |order|
    ensures var q := MoveToFront(order, k);
      IsOrder(q) && forall j :: 0 <= j < |q| ==> q[j] == order[if j == 0 then k else if j <= k then j - 1 else j]
  {
    var q := MoveToFront(order, k);
    forall j | 0 <= j < |q| ensures q[j] == order[if j == 0 then k else if j <= k then j - 1 else j] {}
  }

  // The slots in use come first in the order and no two of them hold the same connection.
  predicate SlotsOk(s: Sender) {
    && SenderOk(s)
    && (forall i, j :: 0 <= i < j < MAX_STATES && s.saved[s.order[j]].Some? ==> s.saved[s.order[i]].Some?)
    && (forall i, j :: 0 <= i < j < MAX_STATES && s.saved[s.order[j]].Some? ==>
          Tuple(s.saved[s.order[i]]) != Tuple(s.saved[s.order[j]]))
  }

  predicate IsInitial(s: Sender) {
    && s.order == seq(MAX_STATES, i requires 0 <= i < MAX_STATES => MAX_STATES - 1 - i)
    && s.saved == seq(MAX_STATES, _ => None) && s.lastXmit == NO_SLOT
  }

  lemma InitialOk(s: Sender)
    requires IsInitial(s)
    ensures SlotsOk(s)
  {
  }

  // The slot at position j of the new order, by its place in the old one.
  function From(k: nat, j: nat): nat { if j == 0 then k else if j <= k then j - 1 else j }

  lemma FrontAt(s: Sender, h: Header, k: nat, j: nat)
    requires SlotsOk(s) && k < MAX_STATES && j < MAX_STATES
    ensures var order := MoveToFront(s.order, k);
      && |order| == MAX_STATES && order[j] == s.order[From(k, j)] < MAX_STATES
      && s.saved[s.order[k] := Some(h)][order[j]] == if j == 0 then Some(h) else s.saved[s.order[From(k, j)]]
  {
    Moved(s.order, k);
  }

  // The slot chosen for h goes to the front.
  lemma FrontOk(s: Sender, h: Header, k: nat)
    requires SlotsOk(s) && k == Search(s.order, s.saved, h, 0)
    ensures SlotsOk(Sender(MoveToFront(s.order, k), s.saved[s.order[k] := Some(h)], s.order[k]))
  {
    hide MoveToFront, Search;
    var s' := Sender(MoveToFront(s.order, k), s.saved[s.order[k] := Some(h)], s.order[k]);
    Moved(s.order, k);
    NoOther(s, h, k);
    forall i, j | 0 <= i < j < MAX_STATES && s'.saved[s'.order[j]].Some?
      ensures s'.saved[s'.order[i]].Some? && Tuple(s'.saved[s'.order[i]]) != Tuple(s'.saved[s'.order[j]])
    {
      FrontAt(s, h, k, i);
      FrontAt(s, h, k, j);
    }
  }

  // Every packet leaves the slots in order; one of a connection without a slot goes to the slot
  // that has not been used for longest.
  lemma SlotsStay(s: Sender, p: Packet, mlen: nat, cid: bool)
    requires SlotsOk(s)
    ensures SlotsOk(CompressStep(s, p, mlen, cid).0)
    ensures !Bypass(p, mlen) && (forall i :: 0 <= i < MAX_STATES ==> !SameConn(s.saved[i], p.h)) ==>
      CompressStep(s, p, mlen, cid).0.order[0] == s.order[MAX_STATES - 1]
  {
    hide Bypass, SlotDelta, CompressedBytes, MoveToFront, SlotsOk;
    if !Bypass(p, mlen) {
      Slotted(s);
      var k := Search(s.order, s.saved, p.h, 0);
      Moved(s.order, k);
      FrontOk(s, p.h, k);
    }
  }

  lemma Slotted(s: Sender)
    requires SlotsOk(s)
    ensures SenderOk(s)
  {
  }

  lemma NoOther(s: Sender, h: Header, k: nat)
    requires SlotsOk(s) && k == Search(s.order, s.saved, h, 0)
    ensures forall i :: 0 <= i < MAX_STATES && i != k && s.saved[s.order[i]].Some? ==> !SameConn(s.saved[s.order[i]], h)
    ensures forall i :: 0 <= i < k && s.saved[s.order[k]].Some? ==> s.saved[s.order[i]].Some?
  {
  }
}
