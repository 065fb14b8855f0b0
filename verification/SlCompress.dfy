// The compressor and the decompressor of netinet/sl_compress.c, with their slots changed in place.

module SlCompressors {
  import opened SlHeaders
  import opened Words
  import opened SlSlots
  import opened SlRuns
  import opened SlWires

  // ENCODE and ENCODEZ: writes n at cp.
  method Put(newSeq: array<nat>, cp: nat, n: nat, zero: bool) returns (cp': nat)
    requires cp + 3 <= newSeq.Length && n < 0x10000 && (n == 0 ==> zero)
    modifies newSeq
    ensures cp <= cp' <= cp + 3
    ensures newSeq[..cp'] == old(newSeq[..cp]) + (if zero then EncZ(n) else Enc(n))
  {
    if n >= 256 || (zero && n == 0) {
      newSeq[cp], newSeq[cp + 1], newSeq[cp + 2] := 0, n / 256, n % 256;
      cp' := cp + 3;
    } else {
      newSeq[cp] := n;
      cp' := cp + 1;
    }
  }

  // The fields that changed, in the order the receiver expects them; false to send uncompressed.
  method PutFields(old_: Header, h: Header, newSeq: array<nat>) returns (ok: bool, m: Mask, cp: nat)
    requires newSeq.Length == 16 && HeaderOk(old_) && HeaderOk(h)
    modifies newSeq
    ensures ok <==>
      (h.flags.urg || h.urp == old_.urp) && Sub32(h.ackNo, old_.ackNo) <= 0xffff && Sub32(h.seqNo, old_.seqNo) <= 0xffff
    ensures ok ==> m == ChangeMask(old_, h) && cp <= 12 && newSeq[..cp] == ChangeBytes(old_, h)
  {
    hide Sub16, Sub32, EncZ, Enc, HeaderOk;
    m, cp, ok := Mask(false, false, false, false, false, false, false), 0, false;
    ghost var u, w, a: seq<nat> := [], [], [];
    assert h.urp < 0x10000 && Sub16(h.win, old_.win) < 0x10000 by { Small(h, old_); }
    if h.flags.urg {
      cp := Put(newSeq, cp, h.urp, true);
      m, u := m.(u := true), EncZ(h.urp);
    } else if h.urp != old_.urp {
      return;
    }
    assert newSeq[..cp] == u;
    var deltaW := Sub16(h.win, old_.win);
    if deltaW != 0 {
      cp := Put(newSeq, cp, deltaW, false);
      m, w := m.(w := true), Enc(deltaW);
    }
    assert newSeq[..cp] == u + w;
    var deltaA := Sub32(h.ackNo, old_.ackNo);
    if deltaA != 0 {
      if deltaA > 0xffff {
        return;
      }
      cp := Put(newSeq, cp, deltaA, false);
      m, a := m.(a := true), Enc(deltaA);
    }
    assert newSeq[..cp] == u + w + a;
    var deltaS := Sub32(h.seqNo, old_.seqNo);
    if deltaS != 0 {
      if deltaS > 0xffff {
        return;
      }
      cp := Put(newSeq, cp, deltaS, false);
      m := m.(s := true);
    }
    ok := true;
  }

  lemma Small(h: Header, old_: Header)
    requires HeaderOk(h)
    ensures h.urp < 0x10000 && Sub16(h.win, old_.win) < 0x10000
  {
  }

  // The whole comparison with a saved header, written into newSeq.
  method PutDelta(old_: Header, h: Header, newSeq: array<nat>) returns (ok: bool, m: Mask, cp: nat)
    requires newSeq.Length == 16 && HeaderOk(old_) && HeaderOk(h)
    modifies newSeq
    ensures ok <==> Encode(old_, h).Some?
    ensures ok ==> cp <= 15 && Encode(old_, h).value == Delta(m, newSeq[..cp])
  {
    hide HeaderOk, ChangeBytes, EncZ, Enc, HeaderLen;
    if !SameFixed(old_, h) {
      return false, Mask(false, false, false, false, false, false, false), 0;
    }
    ok, m, cp := PutFields(old_, h, newSeq);
    if !ok {
      return;
    }
    var hlen := HeaderLen(h);
    var deltaS, deltaA := Sub32(h.seqNo, old_.seqNo), Sub32(h.ackNo, old_.ackNo);
    if !m.s && !m.a && !m.w && !m.u {
      if !(h.len != old_.len && old_.len == hlen) {
        return false, m, cp;
      }
    } else if SpecialI(m) || SpecialD(m) {
      return false, m, cp;
    } else if m.s && m.a && !m.w && !m.u {
      if deltaS == deltaA && deltaS == old_.len - hlen {
        m, cp := m.(a := false, w := true, u := true), 0;
      }
    } else if m.s && !m.a && !m.w && !m.u {
      if deltaS == old_.len - hlen {
        m, cp := m.(a := true, w := true, u := true), 0;
      }
    }
    if h.id - old_.id != 1 {
      cp := Put(newSeq, cp, Sub16(h.id, old_.id), true);
      m := m.(i := true);
    }
    m := m.(p := h.flags.push);
  }

  class Compressor {
    const next: array<nat>                 // cs_next
    const saved: array<Option<Header>>     // cs_ip and what follows it
    var lastCs: nat
    var lastXmit: nat
    ghost var order: seq<nat>
    ghost var uses: seq<nat>

    // The slots are one cycle through cs_next that ends at last_cs.
    ghost predicate Ring()
      reads this, next
    {
      && next.Length == MAX_STATES && IsOrder(order) && lastCs == order[MAX_STATES - 1]
      && next[lastCs] == order[0]
      && forall k :: 0 <= k < MAX_STATES - 1 ==> next[order[k]] == order[k + 1]
    }

    ghost predicate Valid()
      reads this, next, saved
    {
      && Ring() && saved.Length == MAX_STATES && SlotsOk(View()) && InOrderOfUse(order, uses)
      && forall i :: 0 <= i < MAX_STATES ==> SavedOk(saved[i])
    }

    ghost function View(): Sender
      reads this, saved
    {
      Sender(order, saved[..], lastXmit)
    }

    // sl_compress_init, the sending half.
    constructor ()
      ensures Valid() && IsInitial(View()) && uses == []
      ensures fresh(next) && fresh(saved)
    {
      next := new nat[MAX_STATES](_ => 0);
      saved := new Option<Header>[MAX_STATES](_ => None);
      hide SlotsOk, InOrderOfUse, SavedOk;
      lastCs, lastXmit := 0, NO_SLOT;
      order := seq(MAX_STATES, i requires 0 <= i < MAX_STATES => MAX_STATES - 1 - i);
      uses := [];
      new;
      var i := MAX_STATES - 1;
      while i > 0
        invariant 0 <= i < MAX_STATES
        invariant forall j :: i < j < MAX_STATES ==> next[j] == j - 1
        invariant lastCs == 0 && lastXmit == NO_SLOT && uses == []
        invariant order == seq(MAX_STATES, j requires 0 <= j < MAX_STATES => MAX_STATES - 1 - j)
        invariant saved[..] == seq(MAX_STATES, _ => None)
      {
        next[i] := i - 1;
        i := i - 1;
      }
      next[0] := MAX_STATES - 1;
      InitialOk(View());
      FreshOrder(order);
    }

    // The slot search from the second slot on.  lcs is the one in front of cs.
    method FindSlot(h: Header) returns (lcs: nat, cs: nat, ghost k: nat)
      requires Valid() && !SameConn(saved[order[0]], h)
      ensures 0 < k < MAX_STATES && k == Search(order, saved[..], h, 0) && cs == order[k] && lcs == order[k - 1]
    {
      lcs := next[lastCs];
      cs := next[lcs];
      k := 1;
      while !SameConn(saved[cs], h) && cs != lastCs
        invariant 0 < k < MAX_STATES && cs == order[k] && lcs == order[k - 1]
        invariant Search(order, saved[..], h, 0) == Search(order, saved[..], h, k)
        decreases MAX_STATES - k
      {
        lcs := cs;
        cs := next[cs];
        k := k + 1;
      }
    }

    // Moves slot cs, behind lcs, to the front.
    method Promote(lcs: nat, cs: nat, ghost k: nat)
      requires Ring() && 0 < k < MAX_STATES && cs == order[k] && lcs == order[k - 1]
      modifies this`lastCs, this`order, next
      ensures Ring() && order == MoveToFront(old(order), k)
    {
      Moved(order, k);
      if cs == lastCs {
        lastCs := lcs;
      } else {
        next[lcs] := next[cs];
        next[cs] := next[lastCs];
        next[lastCs] := cs;
      }
      ghost var was := order;
      order := MoveToFront(order, k);
      forall j | 0 <= j < MAX_STATES
        ensures order[j] == was[if j == 0 then k else if j <= k then j - 1 else j] {}
    }

    // Saves the packet's header in the slot at the front.
    method Save(h: Header, cs: nat, ghost before: Sender, ghost k: nat)
      requires Ring() && saved.Length == MAX_STATES && cs == order[0] && HeaderOk(h) && Compressible(h)
          && h.proto == TCP
      requires forall i :: 0 <= i < MAX_STATES ==> SavedOk(saved[i])
      requires SlotsOk(before) && k == Search(before.order, before.saved, h, 0)
      requires order == MoveToFront(before.order, k) && saved[..] == before.saved && InOrderOfUse(before.order, uses)
      modifies this`uses, this`lastXmit, saved
      ensures Valid() && View() == Sender(order, before.saved[cs := Some(h)], cs) && uses == old(uses) + [cs]
    {
      SlotsStay(before, Packet(h, []), 40, true);
      OrderStays(before.order, uses, k);
      saved[cs] := Some(h);
      lastXmit := cs;
      uses := uses + [cs];
    }

    // Finds the slot of a packet's connection, or the least recently used one, and moves it to the front.
    method Touch(h: Header) returns (cs: nat, ghost k: nat)
      requires Valid()
      modifies this`lastCs, this`order, next
      ensures Ring() && k == Search(old(order), saved[..], h, 0) && order == MoveToFront(old(order), k)
          && cs == order[0]
    {
      hide SlotsOk, SavedOk, InOrderOfUse;
      k := 0;
      cs := next[lastCs];
      if !SameConn(saved[cs], h) {
        var lcs;
        lcs, cs, k := FindSlot(h);
        Promote(lcs, cs, k);
      } else {
        assert MoveToFront(order, 0) == order;
      }
    }

    // sl_compress_tcp
    method CompressTcp(p: Packet, mlen: nat, compressCid: bool) returns (f: Frame)
      requires Valid() && PacketOk(p)
      modifies this, next, saved
      ensures Valid() && (View(), f) == CompressStep(old(View()), p, mlen, compressCid)
      ensures uses == if Bypass(p, mlen) then old(uses) else old(uses) + [order[0]]
      ensures if Untouched(p.h, mlen) then f == Ip(p) else
                Shrunk(old(saved[..]), p, f, order, !compressCid || old(lastXmit) != order[0])
    {
      hide HeaderOk, Encode, CompressedBytes, EncZ, Enc, InOrderOfUse, SlotsOk, SavedOk, Shrunk;
      if !Untouched(p.h, mlen) { Shrinks(View(), p, mlen, compressCid); }
      if p.h.off % 0x4000 != 0 || mlen < 40 {
        return Ip(p);
      }
      if !p.h.flags.ack || p.h.flags.syn || p.h.flags.fin || p.h.flags.rst {
        return Ip(p);
      }
      ghost var before, k := View(), 0;
      var cs;
      cs, k := Touch(p.h);
      var slot := saved[cs];
      var explicit := !compressCid || lastXmit != cs;
      Save(p.h, cs, before, k);
      f := Emit(slot, p, cs, explicit);
    }
  }

  // The frame for a packet against what was saved in slot cs.
  method Emit(slot: Option<Header>, p: Packet, cs: nat, explicit: bool) returns (f: Frame)
    requires PacketOk(p) && SavedOk(slot) && cs < MAX_STATES
    ensures f == match SlotDelta(slot, p.h)
                 case None => Uncompressed(p.(h := p.h.(proto := cs)))
                 case Some(e) => Compressed(CompressedBytes(e, cs, explicit, p))
  {
    hide HeaderOk, Encode, EncZ, Enc;
    var newSeq := new nat[16](_ => 0);
    if SameConn(slot, p.h) && slot.Some? {
      var ok, changes, cp := PutDelta(slot.value, p.h, newSeq);
      if ok {
        var head := if explicit then [MaskByte(changes.(c := true)), cs] else [MaskByte(changes.(c := false))];
        f := Compressed(head + [p.h.tcpSum / 256, p.h.tcpSum % 256] + newSeq[..cp] + p.data);
        return;
      }
    }
    f := Uncompressed(p.(h := p.h.(proto := cs)));
  }

  // DECODES, DECODEL and DECODEU: reads the number at cp, if there is one to read.
  method Get(want: bool, bytes: seq<nat>, cp: nat) returns (ok: bool, n: nat, cp': nat)
    requires cp <= |bytes|
    ensures cp' <= |bytes| && TakeIf(want, bytes[cp..]) == if ok then Some((n, bytes[cp'..])) else None
  {
    ok, n, cp' := true, 0, cp;
    if want {
      if cp == |bytes| || (bytes[cp] == 0 && |bytes| - cp < 3) {
        ok := false;
      } else if bytes[cp] == 0 {
        n, cp' := 256 * bytes[cp + 1] + bytes[cp + 2], cp + 3;
      } else {
        n, cp' := bytes[cp], cp + 1;
      }
    }
  }

  // The changes of the fields, for all but the special masks.
  method GetFields(g: Header, m: Mask, bytes: seq<nat>, cp: nat) returns (ok: bool, h: Header, cp': nat)
    requires cp <= |bytes|
    ensures cp' <= |bytes| && DecodeFields(g, m, bytes[cp..]) == if ok then Some((h, bytes[cp'..])) else None
  {
    hide TakeIf;
    var u, w, a, s;
    h := g.(flags := g.flags.(urg := m.u));
    ok, u, cp' := Get(m.u, bytes, cp);
    if !ok { return; }
    if m.u { h := h.(urp := u); }
    ok, w, cp' := Get(m.w, bytes, cp');
    if !ok { return; }
    h := h.(win := Add16(h.win, w));
    ok, a, cp' := Get(m.a, bytes, cp');
    if !ok { return; }
    h := h.(ackNo := Add32(h.ackNo, a));
    ok, s, cp' := Get(m.s, bytes, cp');
    if !ok { return; }
    h := h.(seqNo := Add32(h.seqNo, s));
  }

  lemma TakeIfOk(b: bool, bs: seq<nat>)
    requires Bytes(bs)
    ensures var r := TakeIf(b, bs); r.Some? ==> r.value.0 < 0x10000 && Bytes(r.value.1)
  {
  }

  lemma DecodeFieldsOk(g: Header, m: Mask, bs: seq<nat>)
    requires HeaderOk(g) && Bytes(bs)
    ensures var r := DecodeFields(g, m, bs); r.Some? ==> HeaderOk(r.value.0) && r.value.0.sum == g.sum
  {
    hide TakeIf, Mod;
    TakeIfOk(m.u, bs);
  }

  // The highest bit but one of the change byte.
  lemma TopBit(b: nat)
    ensures ByteMask(b).c <==> b / 0x40 % 2 == 1
  {
    assert b % 0x80 == b % 0x40 + 0x40 * (b / 0x40 % 2);
  }

  predicate ZeroSum(slot: Option<Header>) { slot.Some? ==> HeaderOk(slot.value) && slot.value.sum == 0 }

  // What comes off the line is made of bytes.
  predicate FrameOk(f: Frame) {
    match f
    case Ip(_) => true
    case Uncompressed(p) => HeaderOk(p.h)
    case Compressed(bytes) => Bytes(bytes)
  }

  // The frame says which slot it is for.
  predicate NamesSlot(f: Frame) {
    f.Uncompressed? || (f.Compressed? && f.bytes != [] && f.bytes[0] / 0x40 % 2 == 1)
  }

  class Decompressor {
    const saved: array<Option<Header>>
    var lastRecv: nat
    var toss: bool       // SLF_TOSS

    // The saved headers have a zero checksum.
    ghost predicate Valid()
      reads this, saved
    {
      saved.Length == MAX_STATES && forall i :: 0 <= i < MAX_STATES ==> ZeroSum(saved[i])
    }

    ghost function View(): Receiver
      reads this, saved
    {
      Receiver(saved[..], lastRecv, toss)
    }

    // sl_compress_init, the receiving half.
    constructor ()
      ensures Valid() && View() == FreshReceiver() && fresh(saved)
    {
      saved := new Option<Header>[MAX_STATES](_ => None);
      lastRecv, toss := NO_SLOT, true;
    }

    // sl_uncompress_tcp; a plain IP packet never gets there.  The packet made from a compressed frame
    // has a header whose words add up to all ones.  After a failure nothing comes out until a frame
    // names its slot.
    method UncompressTcp(f: Frame) returns (r: Option<Packet>)
      requires Valid() && FrameOk(f)
      modifies this, saved
      ensures Valid() && (View(), r) == ReceiveStep(old(View()), f)
      ensures f.Compressed? && r.Some? ==>
        HeaderOk(r.value.h) && EndAround(Sum(true, IpBytes(r.value.h))) == 0xffff
      ensures !f.Ip? ==> (toss <==> r.None?) && (old(toss) && r.Some? ==> NamesSlot(f))
    {
      hide IpSum, EndAround, Sum, IpBytes, HeaderOk, DecodeSlot, Bytes, ByteMask;
      match f
      case Ip(p) =>
        r := Some(p);
      case Uncompressed(p) =>
        if p.h.proto >= MAX_STATES {
          r := Drop();
          return;
        }
        r := Install(p);
      case Compressed(bytes) =>
        if bytes == [] {
          r := Drop();
          return;
        }
        TopBit(bytes[0]);
        var changes, cp := ByteMask(bytes[0]), 1;
        if changes.c {
          if |bytes| < 2 || bytes[cp] >= MAX_STATES {
            r := Drop();
            return;
          }
          toss, lastRecv, cp := false, bytes[cp], cp + 1;
        } else if toss {
          return None;
        }
        r := Rebuild(changes, bytes, cp);
    }

    // An uncompressed packet says what its slot holds from now on.
    method Install(p: Packet) returns (r: Option<Packet>)
      requires Valid() && p.h.proto < MAX_STATES && HeaderOk(p.h)
      modifies this, saved
      ensures Valid() && (View(), r) == ReceiveStep(old(View()), Uncompressed(p)) && !toss && r.Some?
    {
      lastRecv, toss := p.h.proto, false;
      var h := p.h.(proto := TCP);
      saved[lastRecv] := Some(h.(sum := 0));
      r := Some(p.(h := h));
    }

    method Drop() returns (r: Option<Packet>)
      requires Valid()
      modifies this`toss
      ensures Valid() && toss && r.None? && (View(), r) == Bad(old(View()))
    {
      toss := true;
      r := None;
    }

    // Updates the slot of the connection and puts its header in front of the data.
    method Rebuild(changes: Mask, bytes: seq<nat>, start: nat) returns (r: Option<Packet>)
      requires Valid() && start <= |bytes| && Bytes(bytes) && !toss
      modifies this`toss, saved
      ensures Valid() && (View(), r) == DecodeSlot(old(View()), changes, bytes[start..]) && (toss <==> r.None?)
      ensures r.Some? ==> HeaderOk(r.value.h) && EndAround(Sum(true, IpBytes(r.value.h))) == 0xffff
    {
      hide Decode, IpSum, Sum, EndAround, IpBytes;
      if lastRecv >= MAX_STATES || saved[lastRecv].None? || |bytes| - start < 2 {
        r := Drop();
        return;
      }
      var ok, th, cp := Restore(saved[lastRecv].value, changes, bytes, start);
      if !ok {
        r := Drop();
        return;
      }
      saved[lastRecv] := Some(th);
      var sum := Checksum(th);
      ChecksumOk(th, sum);
      r := Some(Packet(th.(sum := sum), bytes[cp..]));
    }
  }

  lemma ChecksumOk(h: Header, sum: nat)
    requires HeaderOk(h) && sum < 0x10000
    ensures HeaderOk(h.(sum := sum))
  {
  }

  // The saved header with the changes from the frame.
  method Restore(old_: Header, changes: Mask, bytes: seq<nat>, start: nat) returns (ok: bool, th: Header, cp: nat)
    requires start + 2 <= |bytes| && Bytes(bytes) && HeaderOk(old_)
    ensures cp <= |bytes|
    ensures Decode(old_, changes, 256 * bytes[start] + bytes[start + 1], bytes[start + 2..])
         == if ok then Some((th, bytes[cp..])) else None
    ensures ok ==> HeaderOk(th) && th.sum == old_.sum
  {
    hide DecodeFields, HeaderLen, Take, HeaderOk, Mod, Bytes;
    PushOk(old_, changes, bytes, start);
    th := old_.(tcpSum := 256 * bytes[start] + bytes[start + 1], flags := old_.flags.(push := changes.p));
    cp := start + 2;
    var i := old_.len - HeaderLen(old_);
    NumbersOk(th, i);
    ok := true;
    if SpecialI(changes) {
      th := th.(ackNo := Add32(th.ackNo, i), seqNo := Add32(th.seqNo, i));
    } else if SpecialD(changes) {
      th := th.(seqNo := Add32(th.seqNo, i));
    } else {
      DecodeFieldsOk(th, changes, bytes[cp..]) by { RestOk(bytes, cp); }
      ok, th, cp := GetFields(th, changes, bytes, cp);
    }
    if ok {
      var n := 1;
      if changes.i {
        ok, n, cp := Get(true, bytes, cp);
      }
      var len := |bytes| - cp + HeaderLen(old_);
      if ok { LengthOk(th, n, len); }
      th := th.(id := Add16(th.id, n), len := len % 0x10000);
    }
  }

  lemma RestOk(bytes: seq<nat>, cp: nat)
    requires Bytes(bytes) && cp <= |bytes|
    ensures Bytes(bytes[cp..])
  {
  }

  lemma PushOk(h: Header, changes: Mask, bytes: seq<nat>, cp: nat)
    requires HeaderOk(h) && Bytes(bytes) && cp + 2 <= |bytes|
    ensures HeaderOk(h.(tcpSum := 256 * bytes[cp] + bytes[cp + 1], flags := h.flags.(push := changes.p)))
  {
  }

  lemma NumbersOk(h: Header, i: int)
    requires HeaderOk(h)
    ensures HeaderOk(h.(seqNo := Add32(h.seqNo, i)))
    ensures HeaderOk(h.(ackNo := Add32(h.ackNo, i), seqNo := Add32(h.seqNo, i)))
  {
  }

  lemma LengthOk(h: Header, n: nat, len: nat)
    requires HeaderOk(h)
    ensures HeaderOk(h.(id := Add16(h.id, n), len := len % 0x10000))
  {
  }
}
