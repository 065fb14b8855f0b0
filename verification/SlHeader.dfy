// TCP/IP header compression, section 3.2 of RFC 1144: how one header is written as the
// difference from the header saved for its connection, and read back.

module SlHeaders {
  import opened Words
  import InCksums

  const MAX_STATES := 16
  const NO_SLOT := 255         // last_xmit and last_recv before the first packet
  const TCP := 6

  // high: the two bits of th_flags above URG.
  datatype Flags = Flags(fin: bool, syn: bool, rst: bool, push: bool, ack: bool, urg: bool, high: nat)

  // Every field of an IP and a TCP header, in host byte order; off holds the fragment flags as well.
  datatype Header = Header(
    version: nat, tos: nat, len: nat, id: nat, off: nat, ttl: nat, proto: nat, sum: nat, src: nat, dst: nat,
    ipOpts: seq<nat>,
    ports: nat, seqNo: nat, ackNo: nat, x2: nat, flags: Flags, win: nat, tcpSum: nat, urp: nat, tcpOpts: seq<nat>)

  datatype Packet = Packet(h: Header, data: seq<nat>)

  predicate HeaderOk(h: Header) {
    && h.version < 16 && h.tos < 0x100 && h.len < 0x10000 && h.id < 0x10000 && h.off < 0x10000
    && h.ttl < 0x100 && h.proto < 0x100 && h.sum < 0x10000 && h.src < 0x1_0000_0000 && h.dst < 0x1_0000_0000
    && h.ports < 0x1_0000_0000 && h.seqNo < 0x1_0000_0000 && h.ackNo < 0x1_0000_0000 && h.x2 < 16 && h.flags.high < 4
    && h.win < 0x10000 && h.tcpSum < 0x10000 && h.urp < 0x10000
    && |h.ipOpts| % 4 == 0 && |h.ipOpts| <= 40 && Bytes(h.ipOpts)
    && |h.tcpOpts| % 4 == 0 && |h.tcpOpts| <= 40 && Bytes(h.tcpOpts)
  }

  function HeaderLen(h: Header): nat { 40 + |h.ipOpts| + |h.tcpOpts| }

  // ---- the IP header and its checksum --------------------------------------------------------------

  function Two(n: nat): seq<nat> { [n / 256, n % 256] }

  function Four(n: nat): seq<nat> { Two(n / 0x10000) + Two(n % 0x10000) }

  // The IP header as it stands in the packet (section 3.1 of RFC 791).
  function IpBytes(h: Header): (bs: seq<nat>)
    ensures |bs| == 20 + |h.ipOpts|
  {
    Front(h) + Two(h.sum) + Back(h)
  }

  function Front(h: Header): (bs: seq<nat>)
    ensures |bs| == 10
  {
    [h.version * 16 + 5 + |h.ipOpts| / 4, h.tos] + Two(h.len) + Two(h.id) + Two(h.off) + [h.ttl, h.proto]
  }

  function Back(h: Header): seq<nat> { Four(h.src) + Four(h.dst) + h.ipOpts }

  // Every field is read back from its place.
  lemma IpBytesBack(h: Header)
    requires HeaderOk(h)
    ensures var b := IpBytes(h);
      && Bytes(b) && b[0] / 16 == h.version && 4 * (b[0] % 16) == |b| && b[1] == h.tos
      && 256 * b[2] + b[3] == h.len && 256 * b[4] + b[5] == h.id && 256 * b[6] + b[7] == h.off
      && b[8] == h.ttl && b[9] == h.proto && 256 * b[10] + b[11] == h.sum
      && 0x100_0000 * b[12] + 0x10000 * b[13] + 256 * b[14] + b[15] == h.src
      && 0x100_0000 * b[16] + 0x10000 * b[17] + 256 * b[18] + b[19] == h.dst && b[20..] == h.ipOpts
  {
    TwoBytes(h.src / 0x10000);
    TwoBytes(h.src % 0x10000);
    TwoBytes(h.dst / 0x10000);
    TwoBytes(h.dst % 0x10000);
    TwoBytes(h.len);
    TwoBytes(h.id);
    TwoBytes(h.off);
    TwoBytes(h.sum);
  }

  lemma TwoBytes(n: nat)
    requires n < 0x10000
    ensures Bytes(Two(n)) && 256 * Two(n)[0] + Two(n)[1] == n
  {
  }

  function Fold(n: nat): nat { Mod(n, 0x10000) + High(n) }

  // The checksum that makes a receiver's sum over the header all ones.
  function IpSum(h: Header): nat { 0xffff - EndAround(Sum(true, IpBytes(h.(sum := 0)))) }

  // The receiver of the header adds up its words to all ones.
  lemma IpSumVerifies(h: Header)
    ensures IpSum(h) < 0x10000 && EndAround(Sum(true, IpBytes(h.(sum := IpSum(h))))) == 0xffff
  {
    hide Sum, EndAround;
    var x := IpSum(h);
    assert Two(0) == [0, 0];
    assert Front(h.(sum := x)) == Front(h.(sum := 0)) == Front(h);
    assert Back(h.(sum := x)) == Back(h.(sum := 0)) == Back(h);
    InCksums.ChecksumVerifies(true, Front(h), x / 256, x % 256, Back(h));
  }

  // The loop over the header's words and the two folds; the checksum field is zero so far.
  method HeaderSum(bytes: seq<nat>) returns (sum: nat)
    requires Bytes(bytes) && |bytes| % 2 == 0 && |bytes| <= 60
    ensures sum == 0xffff - EndAround(Sum(true, bytes))
  {
    hide EndAround, Mod, High;
    var changes, i := 0, 0;
    assert bytes[0..] == bytes;
    while i < |bytes|
      invariant i <= |bytes| && i % 2 == 0 && changes <= 0x8000 * i
      invariant changes + Sum(true, bytes[i..]) == Sum(true, bytes)
    {
      assert bytes[i..][2..] == bytes[i + 2..];
      changes := changes + Word(true, bytes[i], bytes[i + 1]);
      i := i + 2;
    }
    TwoFolds(changes);
    changes := Mod(changes, 0x10000) + High(changes);
    changes := Mod(changes, 0x10000) + High(changes);
    sum := 0xffff - changes;
  }

  // The checksum of a header whose checksum field is zero.
  method Checksum(h: Header) returns (sum: nat)
    requires HeaderOk(h) && h.sum == 0
    ensures sum == IpSum(h) < 0x10000 && EndAround(Sum(true, IpBytes(h.(sum := sum)))) == 0xffff
  {
    hide Sum, EndAround, IpBytes;
    IpBytesBack(h);
    assert h.(sum := 0) == h;
    sum := HeaderSum(IpBytes(h));
    IpSumVerifies(h);
  }

  lemma TwoFolds(n: nat)
    requires n < 0x100_0000
    ensures Fold(Fold(n)) == EndAround(n) <= 0xffff
  {
    hide Mod, High;
    var f := Fold(n);
    Halves(n);
    Halves(f);
    Halves(Fold(f));
    assert High(n) < 0x100 && f < 0x10100;
    assert n == 65535 * (High(n) + High(f)) + Fold(f) && Fold(f) < 0x10000;
    if n > 0 { InCksums.ModTimes(Fold(f) - 1, High(n) + High(f)); }
  }

  // ---- numbers of one or three bytes -------------------------------------------------------------

  function Enc(n: nat): seq<nat> {
    if n >= 256 then [0, n / 256, n % 256] else [n]
  }

  function EncZ(n: nat): seq<nat> {
    if n >= 256 || n == 0 then [0, n / 256, n % 256] else [n]
  }

  function Take(bs: seq<nat>): Option<(nat, seq<nat>)> {
    if bs == [] then None
    else if bs[0] != 0 then Some((bs[0], bs[1..]))
    else if |bs| < 3 then None
    else Some((256 * bs[1] + bs[2], bs[3..]))
  }

  lemma TakeEncZ(n: nat, rest: seq<nat>)
    ensures Take(EncZ(n) + rest) == Some((n, rest))
  {
    if n >= 256 || n == 0 {
      assert (EncZ(n) + rest)[3..] == rest;
    } else {
      assert (EncZ(n) + rest)[1..] == rest;
    }
  }

  lemma TakeEnc(n: nat, rest: seq<nat>)
    requires n > 0
    ensures Take(Enc(n) + rest) == Some((n, rest))
  {
    TakeEncZ(n, rest);
  }

  // ---- the change mask -----------------------------------------------------------------------------

  datatype Mask = Mask(c: bool, i: bool, p: bool, s: bool, a: bool, w: bool, u: bool)

  function Bit(b: bool, n: nat): nat { if b then n else 0 }

  function MaskByte(m: Mask): nat {
    Bit(m.c, 0x40) + Bit(m.i, 0x20) + Bit(m.p, 0x10) + Bit(m.s, 8) + Bit(m.a, 4) + Bit(m.w, 2) + Bit(m.u, 1)
  }

  // The bits of a byte from NEW_C down; the highest one has no meaning.
  function ByteMask(b: nat): Mask {
    var b6 := b % 0x80;
    var b5 := b6 - Bit(b6 >= 0x40, 0x40);
    var b4 := b5 - Bit(b5 >= 0x20, 0x20);
    var b3 := b4 - Bit(b4 >= 0x10, 0x10);
    var b2 := b3 - Bit(b3 >= 8, 8);
    var b1 := b2 - Bit(b2 >= 4, 4);
    var b0 := b1 - Bit(b1 >= 2, 2);
    Mask(b6 >= 0x40, b5 >= 0x20, b4 >= 0x10, b3 >= 8, b2 >= 4, b1 >= 2, b0 >= 1)
  }

  lemma MaskRoundTrip(m: Mask)
    ensures ByteMask(MaskByte(m)) == m && MaskByte(m) < 0x80
  {
    assert MaskByte(m) % 0x80 == MaskByte(m);
  }

  // SPECIAL_I: echoed terminal traffic; SPECIAL_D: unidirectional data.
  predicate SpecialI(m: Mask) { m.s && !m.a && m.w && m.u }

  predicate SpecialD(m: Mask) { m.s && m.a && m.w && m.u }

  // ---- one header against the one saved --------------------------------------------------------------

  // The packet is an unfragmented TCP segment with ACK and none of SYN, FIN and RST.
  predicate Compressible(h: Header) {
    h.off % 0x4000 == 0 && h.flags.ack && !h.flags.syn && !h.flags.fin && !h.flags.rst
  }

  // What is only expected to change in an uncompressed packet has not changed.
  predicate SameFixed(old_: Header, h: Header) {
    && h.version == old_.version && |h.ipOpts| == |old_.ipOpts| && h.tos == old_.tos
    && h.off == old_.off && h.ttl == old_.ttl && h.proto == old_.proto
    && |h.tcpOpts| == |old_.tcpOpts| && h.ipOpts == old_.ipOpts && h.tcpOpts == old_.tcpOpts
  }

  // What goes into a compressed header besides the slot number and the TCP checksum.
  datatype Delta = Delta(mask: Mask, deltas: seq<nat>)

  function Sub16(x: nat, y: nat): nat { Mod(x - y, 0x10000) }

  function Sub32(x: nat, y: nat): nat { Mod(x - y, 0x1_0000_0000) }

  function ChangeMask(old_: Header, h: Header): Mask {
    Mask(false, false, false, Sub32(h.seqNo, old_.seqNo) != 0, Sub32(h.ackNo, old_.ackNo) != 0,
        Sub16(h.win, old_.win) != 0, h.flags.urg)
  }

  function ChangeBytes(old_: Header, h: Header): seq<nat> {
    var m := ChangeMask(old_, h);
    (if m.u then EncZ(h.urp) else []) + (if m.w then Enc(Sub16(h.win, old_.win)) else [])
    + (if m.a then Enc(Sub32(h.ackNo, old_.ackNo)) else []) + (if m.s then Enc(Sub32(h.seqNo, old_.seqNo)) else [])
  }

  // The special cases, in which the changes of both sequence numbers follow from the last packet's size.
  predicate Echoed(old_: Header, h: Header) {
    var m, s := ChangeMask(old_, h), Sub32(h.seqNo, old_.seqNo);
    m.s && m.a && !m.w && !m.u && s == Sub32(h.ackNo, old_.ackNo) && s == old_.len - HeaderLen(h)
  }

  predicate Streamed(old_: Header, h: Header) {
    var m, s := ChangeMask(old_, h), Sub32(h.seqNo, old_.seqNo);
    m.s && !m.a && !m.w && !m.u && s == old_.len - HeaderLen(h)
  }

  // Nothing changed, and not because data follows an ack.
  predicate Repeated(old_: Header, h: Header) {
    var m := ChangeMask(old_, h);
    !m.s && !m.a && !m.w && !m.u && !(h.len != old_.len && old_.len == HeaderLen(h))
  }

  predicate Special(old_: Header, h: Header) { Echoed(old_, h) || Streamed(old_, h) }

  function IdBytes(old_: Header, h: Header): seq<nat> {
    if h.id - old_.id == 1 then [] else EncZ(Sub16(h.id, old_.id))
  }

  // None: the packet is to be sent uncompressed.
  function Encode(old_: Header, h: Header): Option<Delta> {
    var m := ChangeMask(old_, h);
    if !SameFixed(old_, h) || (!h.flags.urg && h.urp != old_.urp) then None
    else if Sub32(h.ackNo, old_.ackNo) > 0xffff || Sub32(h.seqNo, old_.seqNo) > 0xffff then None
    else if Repeated(old_, h) || SpecialI(m) || SpecialD(m) then None
    else
      var next := h.id - old_.id == 1;
      var tail := IdBytes(old_, h);
      if Echoed(old_, h) then Some(Delta(Mask(false, !next, h.flags.push, true, false, true, true), tail))
      else if Streamed(old_, h) then Some(Delta(Mask(false, !next, h.flags.push, true, true, true, true), tail))
      else Some(Delta(m.(i := !next, p := h.flags.push), ChangeBytes(old_, h) + tail))
  }

  function Add16(x: nat, n: int): nat { Mod(x + n, 0x10000) }

  function Add32(x: nat, n: int): nat { Mod(x + n, 0x1_0000_0000) }

  // Reads one number if the mask has its bit.
  function TakeIf(b: bool, bs: seq<nat>): Option<(nat, seq<nat>)> {
    if b then Take(bs) else Some((0, bs))
  }

  // The fields that the mask names, for all but the special masks.
  function DecodeFields(g: Header, m: Mask, bs: seq<nat>): Option<(Header, seq<nat>)> {
    match TakeIf(m.u, bs) case None => None case Some(u) =>
    match TakeIf(m.w, u.1) case None => None case Some(w) =>
    match TakeIf(m.a, w.1) case None => None case Some(a) =>
    match TakeIf(m.s, a.1) case None => None case Some(s) =>
      Some((g.(flags := g.flags.(urg := m.u), urp := if m.u then u.0 else g.urp,
               win := Add16(g.win, w.0), ackNo := Add32(g.ackNo, a.0), seqNo := Add32(g.seqNo, s.0)), s.1))
  }

  function DecodeId(g: Header, m: Mask, bs: seq<nat>): Option<(Header, seq<nat>)> {
    if !m.i then Some((g.(id := Add16(g.id, 1)), bs)) else
    match Take(bs) case None => None case Some(n) => Some((g.(id := Add16(g.id, n.0)), n.1))
  }

  // The new saved header, with a zero checksum, and the bytes that follow the compressed header.
  function Decode(g: Header, m: Mask, tcpSum: nat, bs: seq<nat>): Option<(Header, seq<nat>)> {
    var h := g.(tcpSum := tcpSum, flags := g.flags.(push := m.p));
    var n := g.len - HeaderLen(g);
    match (if SpecialI(m) then Some((h.(ackNo := Add32(h.ackNo, n), seqNo := Add32(h.seqNo, n)), bs))
           else if SpecialD(m) then Some((h.(seqNo := Add32(h.seqNo, n)), bs))
           else DecodeFields(h, m, bs))
    case None => None
    case Some(f) =>
      match DecodeId(f.0, m, f.1) case None => None case Some(r) =>
        Some((r.0.(len := (HeaderLen(g) + |r.1|) % 0x10000), r.1))
  }

  // ---- reading back what was written -------------------------------------------------------------------

  lemma AddSub16(x: nat, y: nat)
    requires x < 0x10000 && y < 0x10000
    ensures Add16(y, Sub16(x, y)) == x
  {
  }

  lemma AddSub32(x: nat, y: nat)
    requires x < 0x1_0000_0000 && y < 0x1_0000_0000
    ensures Add32(y, Sub32(x, y)) == x
  {
  }

  lemma NoChange(h: Header, old_: Header)
    requires HeaderOk(h) && HeaderOk(old_)
    ensures Sub16(h.win, old_.win) == 0 ==> h.win == old_.win
    ensures Sub32(h.ackNo, old_.ackNo) == 0 ==> h.ackNo == old_.ackNo
  {
  }

  lemma TakeIfEnc(b: bool, n: nat, rest: seq<nat>)
    requires b ==> n > 0
    ensures TakeIf(b, (if b then Enc(n) else []) + rest) == Some((if b then n else 0, rest))
  {
    if b { TakeEnc(n, rest); } else { assert [] + rest == rest; }
  }

  lemma TakeIfEncZ(b: bool, n: nat, rest: seq<nat>)
    ensures TakeIf(b, (if b then EncZ(n) else []) + rest) == Some((if b then n else 0, rest))
  {
    if b { TakeEncZ(n, rest); } else { assert [] + rest == rest; }
  }

  lemma FieldsBack(old_: Header, h: Header, g: Header, m: Mask, rest: seq<nat>)
    requires HeaderOk(old_) && HeaderOk(h) && (!h.flags.urg ==> h.urp == old_.urp)
    requires m == ChangeMask(old_, h).(c := m.c, i := m.i, p := m.p)
    requires g.win == old_.win && g.ackNo == old_.ackNo && g.seqNo == old_.seqNo && g.urp == old_.urp
    ensures DecodeFields(g, m, ChangeBytes(old_, h) + rest)
         == Some((g.(flags := g.flags.(urg := h.flags.urg), urp := h.urp, win := h.win, ackNo := h.ackNo,
             seqNo := h.seqNo), rest))
  {
    hide Sub16, Sub32, Add16, Add32, Enc, EncZ, Take, TakeIf, Bytes;
    var w, a, s := Sub16(h.win, old_.win), Sub32(h.ackNo, old_.ackNo), Sub32(h.seqNo, old_.seqNo);
    var bu, bw := if m.u then EncZ(h.urp) else [], if m.w then Enc(w) else [];
    var ba, bs := if m.a then Enc(a) else [], if m.s then Enc(s) else [];
    assert ChangeBytes(old_, h) + rest == bu + (bw + (ba + (bs + rest)));
    TakeIfEncZ(m.u, h.urp, bw + (ba + (bs + rest)));
    TakeIfEnc(m.w, w, ba + (bs + rest));
    TakeIfEnc(m.a, a, bs + rest);
    TakeIfEnc(m.s, s, rest);
    AddSub16(h.win, old_.win);
    AddSub32(h.ackNo, old_.ackNo);
    AddSub32(h.seqNo, old_.seqNo);
  }

  lemma IdBack(old_: Header, h: Header, g: Header, m: Mask, rest: seq<nat>)
    requires HeaderOk(old_) && HeaderOk(h) && g.id == old_.id && (m.i <==> h.id - old_.id != 1)
    ensures DecodeId(g, m, (if m.i then EncZ(Sub16(h.id, old_.id)) else []) + rest) == Some((g.(id := h.id), rest))
  {
    AddSub16(h.id, old_.id);
    if m.i { TakeEncZ(Sub16(h.id, old_.id), rest); } else { assert [] + rest == rest; }
  }

  // What the decompressor makes of a compressed header: the packet's own header but for the bits
  // that are neither sent nor compared, which are the saved ones.  With a special mask the
  // urgent flag is one of them.
  function Rebuilt(old_: Header, h: Header, dataLen: nat): Header {
    h.(sum := 0, len := (HeaderLen(h) + dataLen) % 0x10000, x2 := old_.x2,
       flags := h.flags.(high := old_.flags.high,
                         urg := if Special(old_, h) then old_.flags.urg else h.flags.urg))
  }

  lemma SpecialBack(old_: Header, h: Header, m: Mask, g: Header, data: seq<nat>)
    requires HeaderOk(old_) && HeaderOk(h) && Special(old_, h) && HeaderLen(h) == HeaderLen(old_) == HeaderLen(g)
    requires m == Mask(m.c, h.id - old_.id != 1, m.p, true, Streamed(old_, h), true, true)
    requires g == old_.(sum := g.sum)
    ensures Decode(g, m, h.tcpSum, IdBytes(old_, h) + data)
         == Some((g.(tcpSum := h.tcpSum, flags := g.flags.(push := m.p), ackNo := h.ackNo, seqNo := h.seqNo, id := h.id,
                     len := (HeaderLen(g) + |data|) % 0x10000), data))
  {
    hide Sub16, Add16, Sub32, Add32, Enc, EncZ, Take, DecodeFields, HeaderLen;
    var h1 := g.(tcpSum := h.tcpSum, flags := g.flags.(push := m.p), ackNo := h.ackNo, seqNo := h.seqNo);
    AddSub32(h.seqNo, old_.seqNo);
    AddSub32(h.ackNo, old_.ackNo);
    NoChange(h, old_);
    IdBack(old_, h, h1, m, data);
  }

  lemma PlainBack(old_: Header, h: Header, m: Mask, g: Header, data: seq<nat>)
    requires HeaderOk(old_) && HeaderOk(h) && (!h.flags.urg ==> h.urp == old_.urp)
    requires m == ChangeMask(old_, h).(c := m.c, i := h.id - old_.id != 1, p := m.p) && !SpecialI(m) && !SpecialD(m)
    requires g == old_.(sum := g.sum)
    ensures Decode(g, m, h.tcpSum, ChangeBytes(old_, h) + IdBytes(old_, h) + data)
         == Some((g.(tcpSum := h.tcpSum, flags := g.flags.(push := m.p, urg := h.flags.urg), urp := h.urp, win := h.win,
                     ackNo := h.ackNo, seqNo := h.seqNo, id := h.id, len := (HeaderLen(g) + |data|) % 0x10000), data))
  {
    hide Sub16, Add16, Sub32, Add32, Enc, EncZ, Take, DecodeFields, HeaderLen, ChangeBytes, HeaderOk;
    var tail := IdBytes(old_, h);
    var h1 := g.(tcpSum := h.tcpSum, flags := g.flags.(push := m.p));
    assert ChangeBytes(old_, h) + tail + data == ChangeBytes(old_, h) + (tail + data);
    FieldsBack(old_, h, h1, m, tail + data);
    IdBack(old_, h, h1.(flags := h1.flags.(urg := h.flags.urg), urp := h.urp, win := h.win, ackNo := h.ackNo,
        seqNo := h.seqNo), m, data);
  }

  lemma DecodeEncode(old_: Header, h: Header, c: bool, data: seq<nat>)
    requires HeaderOk(old_) && HeaderOk(h) && Compressible(old_) && Compressible(h)
    requires Encode(old_, h).Some? && h.src == old_.src && h.dst == old_.dst && h.ports == old_.ports
    ensures var e := Encode(old_, h).value;
      Decode(old_.(sum := 0), e.mask.(c := c), h.tcpSum, e.deltas + data) == Some((Rebuilt(old_, h, |data|), data))
  {
    hide Sub16, Sub32, Enc, EncZ, ChangeBytes, Decode, HeaderOk;
    var e := Encode(old_, h).value;
    var m := e.mask.(c := c);
    if Special(old_, h) {
      SpecialBack(old_, h, m, old_.(sum := 0), data);
      assert h.win == old_.win && h.urp == old_.urp by { NoChange(h, old_); }
      assert Streamed(old_, h) ==> h.ackNo == old_.ackNo by { NoChange(h, old_); }
    } else {
      PlainBack(old_, h, m, old_.(sum := 0), data);
    }
  }
}
