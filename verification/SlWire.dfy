// What goes over the line for a packet, from the fields of two headers alone (section 3.2.2 of RFC 1144).

module SlWires {
  import opened SlHeaders
  import opened Words
  import opened SlSlots
  import opened SlRuns

  // How far a 32-bit or a 16-bit number has moved on.
  function Ahead(x: nat, y: nat): int { if y >= x then y - x else y - x + 0x1_0000_0000 }

  function Ahead16(x: nat, y: nat): int { if y >= x then y - x else y - x + 0x10000 }

  // An IP fragment or a segment with another control bit than ACK, PUSH and URG is not touched.
  predicate Untouched(h: Header, mlen: nat) {
    h.off % 0x4000 != 0 || mlen < 40 || !h.flags.ack || h.flags.syn || h.flags.fin || h.flags.rst
  }

  // h may be sent as the difference from g: what seldom changes has not; the sequence numbers have
  // moved on by less than a window; something has changed, or data follow an acknowledgement; and the
  // fields that changed are not those that a special case stands for.
  predicate MayShrink(g: Header, h: Header) {
    && h.version == g.version && h.tos == g.tos && h.off == g.off && h.ttl == g.ttl && h.proto == g.proto
    && h.ipOpts == g.ipOpts && h.tcpOpts == g.tcpOpts && (h.flags.urg || h.urp == g.urp)
    && Ahead(g.ackNo, h.ackNo) <= 0xffff && Ahead(g.seqNo, h.seqNo) <= 0xffff
    && (h.seqNo != g.seqNo || h.ackNo != g.ackNo || h.win != g.win || h.flags.urg
        || (g.len == 40 + |h.ipOpts| + |h.tcpOpts| && h.len != g.len))
    && !(h.flags.urg && h.win != g.win && h.seqNo != g.seqNo)
  }

  // A number takes one byte if it can, or three.
  function Number(n: nat): (bs: seq<nat>)
    ensures |bs| <= 3
  {
    if 1 <= n < 256 then [n] else [0, n / 256, n % 256]
  }

  // Only the sequence number moved, by the data of the last packet, and with it perhaps the acknowledgement.
  predicate JustMoved(g: Header, h: Header) {
    && h.seqNo != g.seqNo && Ahead(g.seqNo, h.seqNo) == g.len - (40 + |h.ipOpts| + |h.tcpOpts|)
    && h.win == g.win && !h.flags.urg
  }

  predicate Echo(g: Header, h: Header) {
    JustMoved(g, h) && Ahead(g.ackNo, h.ackNo) == Ahead(g.seqNo, h.seqNo)
  }

  predicate Transfer(g: Header, h: Header) { JustMoved(g, h) && h.ackNo == g.ackNo }

  function Bits(g: Header, h: Header): nat {
    if Echo(g, h) then 11
    else if Transfer(g, h) then 15
    else
      (if h.seqNo != g.seqNo then 8 else 0) + (if h.ackNo != g.ackNo then 4 else 0)
      + (if h.win != g.win then 2 else 0) + (if h.flags.urg then 1 else 0)
  }

  function Changes(g: Header, h: Header): seq<nat>
    requires HeaderOk(g) && HeaderOk(h)
  {
    if Echo(g, h) || Transfer(g, h) then [] else
      (if h.flags.urg then Number(h.urp) else [])
      + (if h.win != g.win then Number(Ahead16(g.win, h.win)) else [])
      + (if h.ackNo != g.ackNo then Number(Ahead(g.ackNo, h.ackNo)) else [])
      + (if h.seqNo != g.seqNo then Number(Ahead(g.seqNo, h.seqNo)) else [])
  }

  // The compressed header: the change byte, the slot if it has to be named, the TCP checksum and the changes.
  function Head(g: Header, h: Header, slot: nat, named: bool): seq<nat>
    requires HeaderOk(g) && HeaderOk(h)
  {
    var next := h.id == g.id + 1;
    [(if named then 0x40 else 0) + (if next then 0 else 0x20) + (if h.flags.push then 0x10 else 0) + Bits(g, h)]
    + (if named then [slot] else []) + [h.tcpSum / 256, h.tcpSum % 256]
    + Changes(g, h) + (if next then [] else Number(Ahead16(g.id, h.id)))
  }

  lemma HeadShort(g: Header, h: Header, slot: nat, named: bool)
    requires HeaderOk(g) && HeaderOk(h) && MayShrink(g, h)
    ensures 3 <= |Head(g, h, slot, named)| <= 16
  {
    hide HeaderOk, Ahead, Ahead16, Number;
  }

  // ---- that the encoder does just this ------------------------------------------------------------

  lemma Moves(g: Header, h: Header)
    requires HeaderOk(g) && HeaderOk(h)
    ensures Sub32(h.seqNo, g.seqNo) == Ahead(g.seqNo, h.seqNo) && Sub32(h.ackNo, g.ackNo) == Ahead(g.ackNo, h.ackNo)
    ensures Sub16(h.win, g.win) == Ahead16(g.win, h.win) && Sub16(h.id, g.id) == Ahead16(g.id, h.id)
    ensures 0 <= Ahead(g.seqNo, h.seqNo) && (Ahead(g.seqNo, h.seqNo) == 0 <==> h.seqNo == g.seqNo)
    ensures 0 <= Ahead(g.ackNo, h.ackNo) && (Ahead(g.ackNo, h.ackNo) == 0 <==> h.ackNo == g.ackNo)
    ensures 0 <= Ahead16(g.win, h.win) && (Ahead16(g.win, h.win) == 0 <==> h.win == g.win)
  {
  }

  lemma NumberIs(n: nat)
    ensures EncZ(n) == Number(n) && (n > 0 ==> Enc(n) == Number(n))
  {
  }

  lemma EncodeIff(g: Header, h: Header)
    requires HeaderOk(g) && HeaderOk(h)
    ensures Encode(g, h).Some? <==> MayShrink(g, h)
  {
    hide HeaderOk, Ahead, Ahead16, Sub16, Sub32, ChangeBytes, IdBytes;
    Moves(g, h);
  }

  lemma SpecialIs(g: Header, h: Header)
    requires HeaderOk(g) && HeaderOk(h)
    ensures Echoed(g, h) == Echo(g, h) && Streamed(g, h) == Transfer(g, h)
  {
    hide HeaderOk, Ahead, Ahead16, Sub16, Sub32;
    Moves(g, h);
  }

  lemma ChangeByteIs(g: Header, h: Header, slot: nat, named: bool)
    requires HeaderOk(g) && HeaderOk(h) && Encode(g, h).Some?
    ensures MaskByte(Encode(g, h).value.mask.(c := named)) == Head(g, h, slot, named)[0]
  {
    hide HeaderOk, Ahead, Ahead16, Sub16, Sub32, Number, ChangeBytes, IdBytes, Echo, Transfer, Echoed, Streamed,
         Changes, SameFixed, Repeated;
    Moves(g, h);
    SpecialIs(g, h);
  }

  lemma ChangesAre(g: Header, h: Header)
    requires HeaderOk(g) && HeaderOk(h) && Encode(g, h).Some?
    ensures Encode(g, h).value.deltas == Changes(g, h) + if h.id == g.id + 1 then [] else Number(Ahead16(g.id, h.id))
  {
    hide HeaderOk, Ahead, Ahead16, Sub16, Sub32, Number, Enc, EncZ, Echo, Transfer, Echoed, Streamed, SameFixed,
         Repeated;
    Moves(g, h);
    SpecialIs(g, h);
    NumberIs(h.urp);
    NumberIs(Sub16(h.win, g.win));
    NumberIs(Sub32(h.ackNo, g.ackNo));
    NumberIs(Sub32(h.seqNo, g.seqNo));
    NumberIs(Sub16(h.id, g.id));
    if Special(g, h) { assert Encode(g, h).value.deltas == [] + IdBytes(g, h); }
  }

  lemma HeadIs(g: Header, h: Header, slot: nat, named: bool, data: seq<nat>)
    requires HeaderOk(g) && HeaderOk(h) && MayShrink(g, h)
    ensures Encode(g, h).Some?
      && CompressedBytes(Encode(g, h).value, slot, named, Packet(h, data)) == Head(g, h, slot, named) + data
  {
    hide HeaderOk, Ahead, Ahead16, Number, Changes, Encode, MaskByte, MayShrink, Bits;
    EncodeIff(g, h);
    ChangeByteIs(g, h, slot, named);
    ChangesAre(g, h);
  }

  // ---- one packet ------------------------------------------------------------------------------------

  predicate SameConnection(g: Header, h: Header) { g.src == h.src && g.dst == h.dst && g.ports == h.ports }

  // A slot in use holds the packet's connection, with a header that it may be compared with.
  ghost predicate SlotFits(saved: seq<Option<Header>>, h: Header, i: nat)
    requires i < |saved|
  {
    saved[i].Some? && SameConnection(saved[i].value, h) && MayShrink(saved[i].value, h)
  }

  // What is sent for p when order lists the slots, the one used first.
  ghost predicate Shrunk(saved: seq<Option<Header>>, p: Packet, f: Frame, order: seq<nat>, named: bool) {
    && order != [] && order[0] < |saved| == MAX_STATES
    && match f
       case Ip(_) => false
       case Uncompressed(q) =>
         && (forall j :: 0 <= j < |saved| ==> !SlotFits(saved, p.h, j))
         && q == p.(h := p.h.(proto := order[0]))
       case Compressed(bytes) =>
         && SlotFits(saved, p.h, order[0]) && HeaderOk(saved[order[0]].value) && HeaderOk(p.h)
         && var head := Head(saved[order[0]].value, p.h, order[0], named);
            bytes == head + p.data && 3 <= |head| <= 16
  }

  // A packet goes compressed exactly when a slot fits, and then as Head says.
  lemma Shrinks(s: Sender, p: Packet, mlen: nat, cid: bool)
    requires SlotsOk(s) && PacketOk(p) && !Untouched(p.h, mlen)
    requires forall i :: 0 <= i < MAX_STATES ==> SavedOk(s.saved[i])
    ensures var (s', f) := CompressStep(s, p, mlen, cid);
      Shrunk(s.saved, p, f, s'.order, !cid || s'.order == [] || s.lastXmit != s'.order[0])
  {
    hide HeaderOk, Encode, CompressedBytes, MayShrink, Head, Search, Bypass;
    assert !Bypass(p, mlen) by { Goes(p, mlen); }
    var k := Search(s.order, s.saved, p.h, 0);
    var i := s.order[k];
    assert MoveToFront(s.order, k)[0] == i;
    assert SavedOk(s.saved[i]);
    if s.saved[i].Some? && SameConn(s.saved[i], p.h) {
      EncodeIff(s.saved[i].value, p.h);
      if MayShrink(s.saved[i].value, p.h) {
        HeadIs(s.saved[i].value, p.h, i, !cid || s.lastXmit != i, p.data);
        HeadShort(s.saved[i].value, p.h, i, !cid || s.lastXmit != i);
      }
    }
    forall j | 0 <= j < MAX_STATES && SlotFits(s.saved, p.h, j) ensures j == i { OnlySlot(s, p.h, j); }
  }

  lemma Goes(p: Packet, mlen: nat)
    ensures Bypass(p, mlen) == Untouched(p.h, mlen)
  {
  }

  lemma OnlySlot(s: Sender, h: Header, j: nat)
    requires SlotsOk(s) && j < MAX_STATES && s.saved[j].Some? && SameConnection(s.saved[j].value, h)
    ensures s.order[Search(s.order, s.saved, h, 0)] == j
  {
    hide Search;
    var k := Search(s.order, s.saved, h, 0);
    AllSlots(s.order, j);
    NoOther(s, h, k);
  }

  function Below(n: nat): (s: set<nat>)
    ensures |s| == n && forall x: nat :: x in s <==> x < n
  {
    if n == 0 then {} else Below(n - 1) + {n - 1}
  }

  // Distinct elements, counted.
  lemma {:induction false} Distinct(order: seq<nat>) returns (s: set<nat>)
    requires forall i, j :: 0 <= i < j < |order| ==> order[i] != order[j]
    ensures |s| == |order| && forall x :: x in s <==> x in order
  {
    s := {};
    if order != [] {
      var rest := Distinct(order[1..]);
      s := {order[0]} + rest;
      assert order == [order[0]] + order[1..];
    }
  }

  lemma {:induction false} Smaller(a: set<nat>, b: set<nat>)
    requires a <= b
    ensures |a| <= |b|
  {
    if a != {} {
      var x :| x in a;
      Smaller(a - {x}, b - {x});
    }
  }

  // An order of all slots leaves none out.
  lemma AllSlots(order: seq<nat>, j: nat)
    requires (forall i, k :: 0 <= i < k < |order| ==> order[i] != order[k]) && forall x :: x in order ==> x < |order|
    requires j < |order|
    ensures j in order
  {
    var all := Below(|order|);
    var here := Distinct(order);
    if j !in order {
      Smaller(here, all - {j});
    }
  }
}
