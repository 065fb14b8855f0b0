// Fragmentation in ip_output and reassembly in ipReAssemble (section 3.2 of RFC 791).

module IpFragments {
  import opened Words
  import opened Pieces
  import opened IpPieces

  const EOL := 0
  const NOP := 1

  // off counts 8-byte units; key stands for the source, destination, identification and protocol.
  datatype Datagram = Datagram(key: nat, off: nat, mf: bool, df: bool, opts: seq<nat>, data: seq<nat>)

  function HeaderLen(d: Datagram): nat { 20 + |d.opts| }

  function PieceOf(d: Datagram): Piece { Piece(8 * d.off, |d.data|, !d.mf) }

  // d carries the bytes of the payload that its header says.
  ghost predicate CutOf(d: Datagram, payload: seq<nat>) {
    var p := PieceOf(d);
    Fragment(p, |payload|) && d.data == payload[p.o..End(p)]
  }

  // ---- options --------------------------------------------------------------------------------------

  function OptLen(opts: seq<nat>): nat
    requires opts != [] && (opts[0] == NOP || |opts| >= 2)
  {
    if opts[0] == NOP then 1 else if opts[1] > |opts| then |opts| else opts[1]
  }

  // Every option but EOL and NOP has a length byte that is not zero (ip_dooptions has seen to it).
  predicate OptionsOk(opts: seq<nat>)
    decreases |opts|
  {
    opts == [] || opts[0] == EOL
    || ((opts[0] == NOP || (|opts| >= 2 && opts[1] > 0)) && OptionsOk(opts[OptLen(opts)..]))
  }

  // The options in order, up to the end of the list.
  function Split(opts: seq<nat>): seq<seq<nat>>
    requires OptionsOk(opts)
    decreases |opts|
  {
    if opts == [] || opts[0] == EOL then [] else [opts[..OptLen(opts)]] + Split(opts[OptLen(opts)..])
  }

  predicate Copied(opt: seq<nat>) { opt != [] && (opt[0] == NOP || opt[0] >= 0x80) }

  function Kept(os: seq<seq<nat>>): seq<seq<nat>> {
    if os == [] then [] else (if Copied(os[0]) then [os[0]] else []) + Kept(os[1..])
  }

  function Flat(os: seq<seq<nat>>): seq<nat> {
    if os == [] then [] else os[0] + Flat(os[1..])
  }

  function Zeros(n: nat): seq<nat> { seq(n, _ => EOL) }

  function Padding(n: nat): nat { (4 - n % 4) % 4 }

  // The options that go into every fragment, filled up to a multiple of four bytes.
  function CopiedOptions(opts: seq<nat>): seq<nat>
    requires OptionsOk(opts)
  {
    var f := Flat(Kept(Split(opts)));
    f + Zeros(Padding(|f|))
  }

  // What Kept keeps: the no-operations and the options with the copy bit, as often as they were there.
  lemma {:induction false} KeptAre(os: seq<seq<nat>>, o: seq<nat>)
    ensures multiset(Kept(os))[o] == if o != [] && (o[0] == NOP || o[0] >= 0x80) then multiset(os)[o] else 0
  {
    if os != [] {
      KeptAre(os[1..], o);
      assert os == [os[0]] + os[1..];
    }
  }

  // The options are what stands before the end of the list, cut up.
  lemma {:induction false} SplitJoins(opts: seq<nat>)
    requires OptionsOk(opts)
    ensures var f := Flat(Split(opts)); f <= opts && (|f| == |opts| || opts[|f|] == EOL)
    decreases |opts|
  {
    hide Flat, Split;
    if opts != [] && opts[0] != EOL {
      var l := OptLen(opts);
      SplitJoins(opts[l..]);
      SplitFirst(opts, Split(opts[l..]));
      BehindFirst(opts, l, Flat(Split(opts[l..])));
    } else {
      NothingSplit(opts);
    }
  }

  lemma BehindFirst(opts: seq<nat>, l: nat, f: seq<nat>)
    requires l <= |opts| && f <= opts[l..] && (|f| == |opts[l..]| || opts[l..][|f|] == EOL)
    ensures opts[..l] + f <= opts && (l + |f| == |opts| || opts[l + |f|] == EOL)
  {
  }

  lemma NothingSplit(opts: seq<nat>)
    requires OptionsOk(opts) && (opts == [] || opts[0] == EOL)
    ensures Flat(Split(opts)) == []
  {
  }

  lemma SplitFirst(opts: seq<nat>, rest: seq<seq<nat>>)
    requires OptionsOk(opts) && opts != [] && opts[0] != EOL && rest == Split(opts[OptLen(opts)..])
    ensures Flat(Split(opts)) == opts[..OptLen(opts)] + Flat(rest)
  {
    assert ([opts[..OptLen(opts)]] + rest)[1..] == rest;
  }

  // A no-operation stands alone; the others are as long as their length byte says, or as there is.
  lemma {:induction false} SplitLengths(opts: seq<nat>, o: seq<nat>)
    requires OptionsOk(opts) && o in Split(opts)
    ensures o != [] && o[0] != EOL && if o[0] == NOP then |o| == 1 else |o| == 1 || o[1] >= |o|
    decreases |opts|
  {
    var l := OptLen(opts);
    if o != opts[..l] { SplitLengths(opts[l..], o); }
  }

  lemma {:induction false} KeptCons(o: seq<nat>, os: seq<seq<nat>>)
    ensures Flat(Kept([o] + os)) == (if Copied(o) then o else []) + Flat(Kept(os))
  {
    assert ([o] + os)[1..] == os;
    if Copied(o) {
      assert Kept([o] + os) == [o] + Kept(os);
      assert ([o] + Kept(os))[1..] == Kept(os);
    } else {
      assert Kept([o] + os) == [] + Kept(os) == Kept(os);
    }
  }

  lemma {:induction false} KeptStep(opts: seq<nat>)
    requires OptionsOk(opts) && opts != [] && opts[0] != EOL
    ensures var l := OptLen(opts);
      Flat(Kept(Split(opts))) == (if Copied(opts[..l]) then opts[..l] else []) + Flat(Kept(Split(opts[l..])))
  {
    hide Kept, Flat;
    KeptCons(opts[..OptLen(opts)], Split(opts[OptLen(opts)..]));
  }

  lemma {:induction false} FlatFits(opts: seq<nat>)
    requires OptionsOk(opts)
    ensures |Flat(Kept(Split(opts)))| <= |opts|
    decreases |opts|
  {
    if opts != [] && opts[0] != EOL {
      KeptStep(opts);
      FlatFits(opts[OptLen(opts)..]);
    }
  }

  // The copied options are options again, whatever zeros follow.
  lemma {:induction false} FlatOk(opts: seq<nat>, n: nat)
    requires OptionsOk(opts)
    ensures OptionsOk(Flat(Kept(Split(opts))) + Zeros(n))
    decreases |opts|
  {
    hide Kept, Flat, Split;
    if opts == [] || opts[0] == EOL {
      NoneLeft(opts);
      assert [] + Zeros(n) == Zeros(n);
    } else {
      var l := OptLen(opts);
      var r := Flat(Kept(Split(opts[l..])));
      KeptStep(opts);
      FlatOk(opts[l..], n);
      if Copied(opts[..l]) {
        if l == |opts| { NoneLeft(opts[l..]); }
        if l == 1 && opts[0] != NOP { KeptStep(opts[1..]); }
        OptionThen(opts, r, n);
      } else {
        assert [] + r == r;
      }
    }
  }

  lemma NoneLeft(opts: seq<nat>)
    requires OptionsOk(opts) && (opts == [] || opts[0] == EOL)
    ensures Flat(Kept(Split(opts))) == []
  {
  }

  // An option, and then others; a length byte that was too large may reach into the zeros.
  lemma {:induction false} OptionThen(opts: seq<nat>, r: seq<nat>, n: nat)
    requires OptionsOk(opts) && opts != [] && opts[0] != EOL && OptionsOk(r + Zeros(n))
    requires OptLen(opts) == |opts| && opts[0] != NOP && |opts| > 1 ==> r == []
    requires OptLen(opts) == 1 && opts[0] != NOP ==> r != [] && r[0] == NOP
    ensures OptionsOk(opts[..OptLen(opts)] + r + Zeros(n))
  {
    var l := OptLen(opts);
    var all := opts[..l] + r + Zeros(n);
    assert all == opts[..l] + (r + Zeros(n)) && all[0] == opts[0];
    if opts[0] == NOP || opts[1] == l {
      assert OptLen(all) == l && all[l..] == r + Zeros(n);
    } else {
      assert l == |opts| && all == opts + Zeros(n);
      assert all[OptLen(all)..] == [] || all[OptLen(all)..][0] == EOL;
    }
  }

  // A copied header is never longer than the original one.
  lemma CopiedShort(opts: seq<nat>)
    requires OptionsOk(opts) && |opts| % 4 == 0
    ensures |CopiedOptions(opts)| <= |opts| && |CopiedOptions(opts)| % 4 == 0 && OptionsOk(CopiedOptions(opts))
  {
    hide Flat, Kept, Split, OptionsOk;
    FlatFits(opts);
    FlatOk(opts, Padding(|Flat(Kept(Split(opts)))|));
  }

  lemma {:induction false} NextOption(opts: seq<nat>, cp: nat)
    requires cp < |opts| && OptionsOk(opts[cp..]) && opts[cp] != EOL
    ensures opts[cp] == NOP || (cp + 1 < |opts| && opts[cp + 1] > 0)
    ensures var l := if opts[cp] == NOP then 1 else if opts[cp + 1] > |opts| - cp then |opts| - cp else opts[cp + 1];
      && OptionsOk(opts[cp + l..])
      && Flat(Kept(Split(opts[cp..])))
         == (if opts[cp] == NOP then [NOP] else if opts[cp] >= 0x80 then opts[cp..cp + l] else [])
             + Flat(Kept(Split(opts[cp + l..])))
  {
    hide Kept, Flat, Split;
    var rest := opts[cp..];
    var l := OptLen(rest);
    KeptStep(rest);
    assert rest[..l] == opts[cp..cp + l] && rest[l..] == opts[cp + l..];
    assert opts[cp] == NOP ==> rest[..l] == [NOP];
  }

  // ip_optcopy
  method OptCopy(opts: seq<nat>) returns (dst: seq<nat>)
    requires OptionsOk(opts)
    ensures dst == CopiedOptions(opts)
  {
    hide Kept, Flat, Split, Zeros, OptionsOk, OptLen, Copied;
    dst := [];
    var cp := 0;
    assert opts[0..] == opts;
    while cp < |opts| && opts[cp] != EOL
      invariant cp <= |opts| && OptionsOk(opts[cp..])
      invariant Flat(Kept(Split(opts))) == dst + Flat(Kept(Split(opts[cp..])))
    {
      NextOption(opts, cp);
      var optlen;
      if opts[cp] == NOP {
        dst := dst + [NOP];
        optlen := 1;
      } else {
        optlen := opts[cp + 1];
        if optlen > |opts| - cp {
          optlen := |opts| - cp;
        }
        if opts[cp] >= 0x80 {
          dst := dst + opts[cp..cp + optlen];
        }
      }
      cp := cp + optlen;
    }
    NoneLeft(opts[cp..]);
    dst := Pad(dst);
  }

  // Fills up with EOL to a multiple of four bytes.
  method Pad(src: seq<nat>) returns (dst: seq<nat>)
    ensures dst == src + Zeros(Padding(|src|))
  {
    dst := src;
    var n := |dst|;
    ghost var flat := dst;
    while n % 4 != 0
      invariant |flat| <= n <= |flat| + Padding(|flat|) && dst == flat + Zeros(n - |flat|)
      decreases |flat| + Padding(|flat|) - n
    {
      dst := dst + [EOL];
      n := n + 1;
    }
  }

  // ---- fragmentation ----------------------------------------------------------------------------------

  // The fragments carry data, the first from unit off on, all but the last in whole units and
  // marked MF; mf: the last one is marked too.
  predicate Tiled(fs: seq<Datagram>, off: nat, data: seq<nat>, mf: bool)
    decreases |fs|
  {
    && fs != [] && fs[0].off == off && |fs[0].data| <= |data| && fs[0].data == data[..|fs[0].data|]
    && if |fs| == 1 then fs[0].data == data && fs[0].mf == mf
       else
         && fs[0].mf && |fs[0].data| < |data| && |fs[0].data| % 8 == 0
         && Tiled(fs[1..], off + |fs[0].data| / 8, data[|fs[0].data|..], mf)
  }

  // Adding one more fragment, taken from the last.
  lemma {:induction false} TiledMore(fs: seq<Datagram>, f: Datagram, off: nat, data: seq<nat>, more: seq<nat>, mf: bool)
    requires Tiled(fs, off, data, true) && |data| % 8 == 0 && f.off == off + |data| / 8 && f.data == more != []
        && f.mf == mf
    ensures Tiled(fs + [f], off, data + more, mf)
    decreases |fs|
  {
    var d := fs[0].data;
    assert (data + more)[..|d|] == d;
    assert (fs + [f])[1..] == fs[1..] + [f] && (fs + [f])[0] == fs[0];
    if |fs| == 1 {
      assert (data + more)[|d|..] == more && fs[1..] + [f] == [f] && more[..|more|] == more;
    } else {
      assert (data + more)[|d|..] == data[|d|..] + more;
      assert |data| == |d| + |data[|d|..]|;
      TiledMore(fs[1..], f, off + |d| / 8, data[|d|..], more, mf);
    }
  }

  ghost predicate Fits(f: Datagram, ip: Datagram, mtu: int) {
    && HeaderLen(f) + |f.data| <= mtu && f.key == ip.key && f.df == ip.df
    && OptionsOk(f.opts) && |f.opts| % 4 == 0 && |f.opts| <= |ip.opts|
  }

  ghost predicate AllFit(fs: seq<Datagram>, ip: Datagram, mtu: int) {
    forall i :: 0 <= i < |fs| ==> Fits(fs[i], ip, mtu)
  }

  // The first fragment has all the options, the others those that are to be copied.
  ghost predicate OptionsKept(fs: seq<Datagram>, ip: Datagram)
    requires OptionsOk(ip.opts)
  {
    fs != [] && fs[0].opts == ip.opts && forall i :: 0 < i < |fs| ==> fs[i].opts == CopiedOptions(ip.opts)
  }

  predicate Sendable(ip: Datagram, mtu: int) {
    HeaderLen(ip) + |ip.data| <= mtu || (!ip.df && mtu - HeaderLen(ip) >= 8)
  }

  // All fragments but the last carry len bytes, and there are no more of them than it takes.
  ghost predicate Even(fs: seq<Datagram>, len: nat, total: nat) {
    && (forall i :: 0 <= i < |fs| - 1 ==> |fs[i].data| == len)
    && (|fs| - 1) * len < total <= |fs| * len
  }

  // All carry len bytes, done between them.
  ghost predicate Full(fs: seq<Datagram>, len: nat, done: nat) {
    (forall i :: 0 <= i < |fs| ==> |fs[i].data| == len) && done == |fs| * len
  }

  lemma OneFull(f: Datagram)
    ensures Full([f], |f.data|, |f.data|)
  {
  }

  lemma EvenMore(fs: seq<Datagram>, f: Datagram, len: nat, done: nat, total: nat)
    requires Full(fs, len, done) && done < total && |f.data| == if done + len >= total then total - done else len
    ensures if done + len >= total then Even(fs + [f], len, total) else Full(fs + [f], len, done + len)
  {
    assert (|fs| + 1) * len == |fs| * len + len;
  }

  // The end of ip_output: sends the datagram as it is or in fragments, or fails (EMSGSIZE).
  method Output(ip: Datagram, mtu: int) returns (ok: bool, out: seq<Datagram>)
    requires OptionsOk(ip.opts) && |ip.opts| % 4 == 0
    ensures ok <==> Sendable(ip, mtu)
    ensures ok ==> OptionsKept(out, ip)
    ensures ok ==> Tiled(out, ip.off, ip.data, ip.mf) && AllFit(out, ip, mtu)
    ensures HeaderLen(ip) + |ip.data| <= mtu ==> out == [ip]
    ensures ok && HeaderLen(ip) + |ip.data| > mtu ==>
      exists len: nat :: Even(out, len, |ip.data|) && len % 8 == 0 && mtu - 8 < HeaderLen(ip) + len <= mtu
  {
    hide Tiled, OptionsOk, CopiedOptions;
    var hlen := HeaderLen(ip);
    var ipLen := hlen + |ip.data|;
    if ipLen <= mtu {
      OneTile(ip);
      return true, [ip];
    }
    if ip.df {
      return false, [];
    }
    var len := (mtu - hlen) / 8 * 8;
    if len < 8 {
      return false, [];
    }
    out := FragmentLoop(ip, mtu, len);
    ok := true;
  }

  lemma OneTile(ip: Datagram)
    ensures Tiled([ip], ip.off, ip.data, ip.mf)
  {
  }

  // The fragments of ip's first done bytes, of len bytes each; at the end, all of them.
  ghost predicate Cut(fs: seq<Datagram>, ip: Datagram, mtu: int, len: nat, done: nat)
    requires OptionsOk(ip.opts) && done <= |ip.data|
  {
    && Tiled(fs, ip.off, ip.data[..done], done < |ip.data| || ip.mf) && OptionsKept(fs, ip) && AllFit(fs, ip, mtu)
    && if done < |ip.data| then Full(fs, len, done) else Even(fs, len, |ip.data|)
  }

  // One more fragment behind the first done bytes.
  lemma CutMore(fs: seq<Datagram>, f: Datagram, ip: Datagram, mtu: int, len: nat, done: nat)
    requires OptionsOk(ip.opts) && |ip.opts| % 4 == 0 && done < |ip.data| && Cut(fs, ip, mtu, len, done)
    requires 0 < len && len % 8 == 0 && done % 8 == 0 && HeaderLen(ip) + len <= mtu
    requires var n := if done + len >= |ip.data| then |ip.data| - done else len;
      f == Datagram(ip.key, done / 8 + ip.off, done + len < |ip.data| || ip.mf, ip.df, CopiedOptions(ip.opts),
        ip.data[done..done + n])
    ensures Cut(fs + [f], ip, mtu, len, done + |f.data|)
  {
    hide Tiled, OptionsOk, CopiedOptions, Fits, OptionsKept, AllFit, Full, Even;
    TiledMore(fs, f, ip.off, ip.data[..done], f.data, f.mf);
    AlsoFits(fs, f, ip, mtu);
    EvenMore(fs, f, len, done, |ip.data|);
    assert ip.data[..done] + f.data == ip.data[..done + |f.data|];
  }

  lemma CutFirst(f: Datagram, ip: Datagram, mtu: int, len: nat)
    requires OptionsOk(ip.opts) && |ip.opts| % 4 == 0 && len < |ip.data| && HeaderLen(ip) + len <= mtu
    requires f == ip.(mf := true, data := ip.data[..len])
    ensures Cut([f], ip, mtu, len, len)
  {
    hide Tiled, OptionsOk, CopiedOptions, Fits;
    OneTile(f);
    FirstFits(f, ip, mtu);
    OneFull(f);
  }

  lemma AllCut(fs: seq<Datagram>, ip: Datagram, mtu: int, len: nat)
    requires OptionsOk(ip.opts) && Cut(fs, ip, mtu, len, |ip.data|)
    ensures Tiled(fs, ip.off, ip.data, ip.mf) && AllFit(fs, ip, mtu) && OptionsKept(fs, ip) && Even(fs, len, |ip.data|)
  {
    hide Tiled;
    assert ip.data[..|ip.data|] == ip.data;
  }

  // Makes a header for each part after the first len bytes and copies its data.
  method FragmentLoop(ip: Datagram, mtu: int, firstLen: nat) returns (out: seq<Datagram>)
    requires OptionsOk(ip.opts) && |ip.opts| % 4 == 0
    requires firstLen > 0 && firstLen % 8 == 0 && HeaderLen(ip) + firstLen <= mtu && firstLen < |ip.data|
    ensures Tiled(out, ip.off, ip.data, ip.mf) && AllFit(out, ip, mtu)
    ensures OptionsKept(out, ip) && Even(out, firstLen, |ip.data|)
  {
    hide OptionsOk, CopiedOptions, Cut, Tiled, AllFit, OptionsKept, Even;
    var hlen, ipLen, len := HeaderLen(ip), HeaderLen(ip) + |ip.data|, firstLen;
    var off := hlen + len;
    out := [ip.(mf := true, data := ip.data[..firstLen])];
    CutFirst(out[0], ip, mtu, firstLen);
    while off < ipLen
      invariant hlen < off <= ipLen && Cut(out, ip, mtu, firstLen, off - hlen)
      invariant off < ipLen ==> (off - hlen) % 8 == 0 && len == firstLen
      decreases ipLen - off
    {
      ghost var done := off - hlen;
      var opts := NextOptions(ip);
      var fragOff, mf := (off - hlen) / 8 + ip.off, ip.mf;
      if off + len >= ipLen {
        len := ipLen - off;
      } else {
        mf := true;
      }
      var f := Datagram(ip.key, fragOff, mf, ip.df, opts, ip.data[off - hlen..off - hlen + len]);
      CutMore(out, f, ip, mtu, firstLen, done);
      out := out + [f];
      off := off + len;
    }
    AllCut(out, ip, mtu, firstLen);
  }

  lemma FirstFits(f: Datagram, ip: Datagram, mtu: int)
    requires OptionsOk(ip.opts) && |ip.opts| % 4 == 0 && f == ip.(mf := true, data := f.data)
        && HeaderLen(ip) + |f.data| <= mtu
    ensures OptionsKept([f], ip) && AllFit([f], ip, mtu)
  {
  }

  lemma AlsoFits(fs: seq<Datagram>, f: Datagram, ip: Datagram, mtu: int)
    requires OptionsOk(ip.opts) && |ip.opts| % 4 == 0 && OptionsKept(fs, ip) && AllFit(fs, ip, mtu)
    requires f.key == ip.key && f.df == ip.df && f.opts == CopiedOptions(ip.opts) && HeaderLen(ip) + |f.data| <= mtu
    ensures OptionsKept(fs + [f], ip) && AllFit(fs + [f], ip, mtu)
  {
    hide OptionsOk, CopiedOptions;
    CopiedShort(ip.opts);
  }

  // The options of a fragment that is not the first.
  method NextOptions(ip: Datagram) returns (opts: seq<nat>)
    requires OptionsOk(ip.opts)
    ensures opts == CopiedOptions(ip.opts)
  {
    opts := [];
    if HeaderLen(ip) > 20 {
      opts := OptCopy(ip.opts);
    }
  }

  // Fragments of a datagram that is itself cut from the payload are cut from it as well, and hold
  // the same bytes between them.
  lemma {:induction false} TiledCut(fs: seq<Datagram>, off: nat, data: seq<nat>, mf: bool, payload: seq<nat>)
    requires Tiled(fs, off, data, mf) && 8 * off + |data| <= |payload| && data == payload[8 * off..8 * off + |data|]
    requires !mf <==> 8 * off + |data| == |payload|
    ensures forall i :: 0 <= i < |fs| ==> CutOf(fs[i], payload)
    ensures forall x :: Covers(PiecesOf(fs), x) <==> 8 * off <= x < 8 * off + |data|
    decreases |fs|
  {
    var d := fs[0].data;
    assert PiecesOf(fs)[1..] == PiecesOf(fs[1..]);
    assert d == payload[8 * off..8 * off + |d|];
    if |fs| > 1 {
      assert data[|d|..] == payload[8 * off + |d|..8 * off + |data|];
      TiledCut(fs[1..], off + |d| / 8, data[|d|..], mf, payload);
      forall i | 0 < i < |fs| ensures CutOf(fs[i], payload) { assert fs[1..][i - 1] == fs[i]; }
    } else {
      assert PiecesOf(fs[1..]) == [];
    }
  }

  function PiecesOf(fs: seq<Datagram>): seq<Piece> { seq(|fs|, i requires 0 <= i < |fs| => PieceOf(fs[i])) }

  // ---- reassembly ---------------------------------------------------------------------------------------

  // A fragment as ipintr hands it over: offset in bytes, data without the header, and whether
  // more fragments follow.
  datatype Frag = Frag(off: nat, data: seq<nat>, mff: bool)

  ghost predicate IsFrag(f: Frag, p: Piece, payload: seq<nat>) {
    Fragment(p, |payload|) && f == Frag(p.o, payload[p.o..End(p)], !p.fin)
  }

  ghost predicate AreFrags(fs: seq<Frag>, ps: seq<Piece>, payload: seq<nat>) {
    |fs| == |ps| && forall i :: 0 <= i < |fs| ==> IsFrag(fs[i], ps[i], payload)
  }

  function FragEnd(f: Frag): nat { f.off + |f.data| }

  function CutTail(f: Frag, i: nat): Frag
    requires i <= |f.data|
  {
    Frag(f.off, f.data[..|f.data| - i], f.mff)
  }

  lemma CutTailIs(f: Frag, p: Piece, i: nat, payload: seq<nat>)
    requires IsFrag(f, p, payload) && i <= p.n && (i > 0 ==> !p.fin)
    ensures IsFrag(CutTail(f, i), TrimTail(p, i), payload)
  {
  }

  // One for every datagram under way (struct ipq).
  class FragQueue {
    var frags: seq<Frag>          // the list from pMbufPkt
    ghost const payload: seq<nat>
    ghost var pieces: seq<Piece>  // the list by offsets
    ghost var arrived: seq<Piece> // all that has come in

    ghost predicate Valid()
      reads this
    {
      && AreFrags(frags, pieces, payload) && Listed(pieces, 0, |payload|) && !Complete(pieces)
      && pieces == AddAll([], arrived) && forall i :: 0 <= i < |arrived| ==> Fragment(arrived[i], |payload|)
    }

    constructor (ghost payload: seq<nat>)
      ensures Valid() && frags == [] && arrived == [] && this.payload == payload
    {
      frags := [];
      this.payload, pieces, arrived := payload, [], [];
    }

    // Puts the fragment in front of the list from position k on, none of which begins before it.
    method PutBefore(f: Frag, k: nat, ghost a: seq<Piece>, ghost gs: seq<Piece>, ghost p: Piece)
      requires k < |frags| && |a| == k && AreFrags(frags, a + gs, payload) && IsFrag(f, p, payload) && p.o <= gs[0].o
      requires Listed(gs, p.o, |payload|)
      modifies this`frags
      ensures AreFrags(frags, a + PutFirst(gs, p), payload)
    {
      ghost var c := gs;
      while k < |frags| && FragEnd(f) >= FragEnd(frags[k])
        invariant k <= |frags| && AreFrags(frags, a + c, payload) && Beyond(c, End(p)) == Beyond(gs, End(p))
            && Listed(c, p.o, |payload|)
        decreases |frags|
      {
        assert (a + c)[k] == c[0];
        frags := frags[..k] + frags[k + 1..];
        assert (a + c)[..k] + (a + c)[k + 1..] == a + c[1..];
        c := c[1..];
      }
      var g, p' := f, p;
      if k < |frags| {
        assert (a + c)[k] == c[0];
        var len := FragEnd(f) - frags[k].off;
        if len > 0 {
          CutTailIs(f, p, len, payload);
          g, p' := CutTail(f, len), TrimTail(p, len);
        }
      }
      frags := frags[..k] + [g] + frags[k..];
      assert a + PutFirst(gs, p) == a + ([p'] + c);
    }

    // Cuts off what the new fragment provides of the one at position k, in front of it.
    method TrimAt(f: Frag, k: nat, len: nat, ghost a: seq<Piece>, ghost gs: seq<Piece>, ghost p: Piece)
      requires k < |frags| && |a| == k && AreFrags(frags, a + gs, payload) && gs != [] && IsFrag(f, p, payload)
      requires gs[0].o < p.o < End(gs[0]) < End(p) && len == End(gs[0]) - p.o
      modifies this`frags
      ensures AreFrags(frags, a + ([CutBy(gs[0], p)] + gs[1..]), payload)
    {
      assert (a + gs)[k] == gs[0];
      CutTailIs(frags[k], gs[0], len, payload);
      frags := frags[k := CutTail(frags[k], len)];
      assert (a + gs)[k := CutBy(gs[0], p)] == a + ([CutBy(gs[0], p)] + gs[1..]);
    }

    // The fragment at position k begins before the new one: false if it provides all of that.
    method PassOne(f: Frag, k: nat, ghost a: seq<Piece>, ghost gs: seq<Piece>, ghost p: Piece) returns (kept: bool)
      requires k < |frags| && |a| == k && AreFrags(frags, a + gs, payload) && gs != [] && IsFrag(f, p, payload)
          && gs[0].o < p.o
      modifies this`frags
      ensures kept <==> !(End(gs[0]) > p.o && End(gs[0]) >= End(p))
      ensures kept ==> AreFrags(frags, a + ([CutBy(gs[0], p)] + gs[1..]), payload)
      ensures !kept || End(gs[0]) <= p.o ==> frags == old(frags)
    {
      kept := true;
      assert (a + gs)[k] == gs[0] && gs == [gs[0]] + gs[1..];
      var len := FragEnd(frags[k]) - f.off;
      if len > 0 {
        if len >= |f.data| {
          kept := false;
          return;
        }
        TrimAt(f, k, len, a, gs, p);
      }
    }

    // Links the fragment in, trimming where it overlaps others; false: all of it was there.
    method InsertFrag(f: Frag, ghost p: Piece) returns (kept: bool)
      requires Valid() && frags != [] && IsFrag(f, p, payload)
      modifies `frags, `pieces
      ensures AreFrags(frags, pieces, payload) && pieces == Insert(old(pieces), p) && kept == !Dropped(old(pieces), p)
      ensures !kept ==> frags == old(frags)
    {
      hide Complete, PutFirst, Merge, Dropped, Listed, CutBy, TrimTail, Fragment, AreFrags;
      kept := true;
      var k := 0;
      ghost var ps, a, gs := pieces, [], pieces;
      SomeFrags(frags, ps, payload);
      pieces := Insert(ps, p);
      while k < |frags|
        invariant k < |frags| && |a| == k && gs != [] && AreFrags(frags, a + gs, payload) && Listed(gs, 0, |payload|)
        invariant Dropped(ps, p) == Dropped(gs, p)
        invariant !Dropped(ps, p) ==> Merge(ps, p) == a + Merge(gs, p)
        invariant pieces == Insert(ps, p)
        invariant (a + gs == ps && frags == old(frags)) || p.o <= gs[0].o
        decreases |frags| - k
      {
        var g := frags[k];
        HeadFrag(frags, a, gs, payload);
        MergeStep(gs, p);
        if f.off > g.off {
          kept := PassOne(f, k, a, gs, p);
          if !kept {
            pieces := ps;
            return;
          }
          ghost var cut := [CutBy(gs[0], p)];
          HeadFrag(frags, a, cut + gs[1..], payload);
          if k + 1 == |frags| {
            LastFrag(frags, a, cut, gs[1..], f, p, payload);
            frags := frags + [f];
            return;
          }
          NextBeyond(gs, p, |payload|);
          Regroup(a, cut, gs[1..]);
          Regroup(a, cut, Merge(gs[1..], p));
          a, gs := a + cut, gs[1..];
          k := k + 1;
        } else {
          LowestFirst(gs, p, 0, |payload|);
          PutBefore(f, k, a, gs, p);
          return;
        }
      }
    }

    // Whether the list has no gap from 0 on and ends with the last fragment; len: its length.
    method Check() returns (whole: bool, len: nat)
      requires AreFrags(frags, pieces, payload) && frags != []
      ensures whole == Complete(pieces) && (whole ==> len == Run(pieces, 0))
    {
      len := 0;
      var k := 0;
      while k < |frags|
        invariant k <= |frags| && Run(pieces, 0) == Run(pieces[k..], len)
      {
        assert pieces[k..][0] == pieces[k] && pieces[k..][1..] == pieces[k + 1..];
        if frags[k].off != len {
          return false, len;
        }
        len := len + |frags[k].data|;
        k := k + 1;
      }
      whole := !frags[|frags| - 1].mff;
    }

    // Concatenates all fragments.
    method Concatenate() returns (data: seq<nat>)
      requires AreFrags(frags, pieces, payload) && frags != [] && Listed(pieces, 0, |payload|) && Complete(pieces)
      ensures data == payload
    {
      ghost var total := |payload|;
      data := frags[0].data;
      RunFrom(pieces, 0, 0, total);
      var k := 1;
      while k < |frags|
        invariant 1 <= k <= |frags| && data == payload[..End(pieces[k - 1])]
      {
        RunFrom(pieces, 0, k, total);
        data := data + frags[k].data;
        k := k + 1;
      }
      RunCovers(pieces, 0, total);
      LastFin(pieces, 0, total);
    }

    // The fragment goes into the list; true if the list is to be checked.
    method PutIn(f: Frag, ghost p: Piece) returns (kept: bool)
      requires Valid() && IsFrag(f, p, payload)
      modifies `frags, `pieces
      ensures AreFrags(frags, pieces, payload) && Listed(pieces, 0, |payload|) && pieces == Add(old(pieces), p)
          && frags != []
      ensures !kept ==> pieces == old(pieces)
    {
      hide Complete, Insert, Dropped;
      ghost var total := |payload|;
      if frags == [] {
        frags, pieces := [f], [p];
        assert Listed([p], 0, total) by { ListedCons(p, [], 0, total); assert [p] + [] == [p]; }
        return true;
      }
      InsertKeeps(pieces, p, total);
      InsertNonEmpty(pieces, p);
      ghost var was := pieces;
      kept := InsertFrag(f, p);
      if !kept { DroppedSame(was, p); }
    }

    // ipReAssemble: the payload when with the fragment all of it has come in, and nothing before that.
    method ReAssemble(f: Frag, ghost p: Piece) returns (r: Option<seq<nat>>)
      requires Valid() && IsFrag(f, p, payload)
      modifies this
      ensures Valid() && (r.Some? <==> AllThere(old(arrived) + [p], |payload|))
      ensures r.Some? ==> r.value == payload && frags == [] && arrived == []
      ensures r.None? ==> arrived == old(arrived) + [p]
    {
      hide Complete, Insert, Dropped, AddAll, Listed, AllThere;
      AddAllSnoc([], arrived, p);
      CompleteWhenAllThere(arrived + [p], |payload|);
      var kept := PutIn(f, p);
      arrived := arrived + [p];
      if !kept {
        return None;
      }
      var whole, len := Check();
      if !whole {
        return None;
      }
      var data := Concatenate();
      NothingYet(|payload|);
      frags, pieces, arrived := [], [], [];
      r := Some(data);
    }
  }

  lemma SomeFrags(fs: seq<Frag>, ps: seq<Piece>, payload: seq<nat>)
    requires AreFrags(fs, ps, payload)
    ensures |fs| == |ps| && [] + ps == ps
  {
  }

  lemma HeadFrag(fs: seq<Frag>, a: seq<Piece>, gs: seq<Piece>, payload: seq<nat>)
    requires AreFrags(fs, a + gs, payload) && gs != []
    ensures |fs| == |a| + |gs| && IsFrag(fs[|a|], gs[0], payload)
  {
    assert (a + gs)[|a|] == gs[0];
  }

  lemma LastFrag(fs: seq<Frag>, a: seq<Piece>, cut: seq<Piece>, gs: seq<Piece>, f: Frag, p: Piece, payload: seq<nat>)
    requires AreFrags(fs, a + (cut + gs), payload) && |fs| == |a| + |cut| && IsFrag(f, p, payload)
    ensures AreFrags(fs + [f], a + (cut + [p]), payload) && gs == []
  {
    assert gs == [] && a + (cut + gs) + [p] == a + (cut + [p]);
  }

  lemma Regroup<T>(a: seq<T>, b: seq<T>, c: seq<T>)
    ensures a + (b + c) == (a + b) + c
  {
  }

  lemma NothingYet(total: nat)
    ensures !Complete([]) && AddAll([], []) == [] && Listed([], 0, total)
  {
  }

  lemma DroppedSame(gs: seq<Piece>, p: Piece)
    requires gs != [] && Dropped(gs, p)
    ensures Insert(gs, p) == gs
  {
  }

  // In a list without a gap each fragment begins where the one before it ends.
  lemma {:induction false} RunFrom(gs: seq<Piece>, len: nat, k: nat, total: nat)
    requires Run(gs, len) >= 0 && k < |gs| && Listed(gs, len, total)
    ensures gs[k].o == (if k == 0 then len else End(gs[k - 1])) && End(gs[k]) <= total
  {
    if k > 0 {
      RunFrom(gs[1..], End(gs[0]), k - 1, total);
      assert k > 1 ==> gs[1..][k - 2] == gs[k - 1];
    }
  }

  lemma {:induction false} MergeStep(gs: seq<Piece>, p: Piece)
    requires gs != []
    ensures p.o <= gs[0].o ==> !Dropped(gs, p) && Merge(gs, p) == PutFirst(gs, p)
    ensures p.o > gs[0].o && End(gs[0]) > p.o && End(gs[0]) >= End(p) ==> Dropped(gs, p)
    ensures p.o > gs[0].o && !(End(gs[0]) > p.o && End(gs[0]) >= End(p)) ==>
      && (End(gs[0]) <= p.o ==> CutBy(gs[0], p) == gs[0])
      && Dropped(gs, p) == Dropped(gs[1..], p) && (|gs| == 1 ==> !Dropped(gs, p))
      && Merge(gs, p) == [CutBy(gs[0], p)] + (if |gs| == 1 then [p] else Merge(gs[1..], p))
  {
  }

  lemma NextBeyond(gs: seq<Piece>, p: Piece, total: nat)
    requires |gs| > 1 && Listed(gs, 0, total)
    ensures End(gs[0]) > p.o ==> gs[1].o > p.o
    ensures Listed(gs[1..], 0, total)
  {
  }

  // ---- from one end to the other ---------------------------------------------------------------------------

  lemma {:induction false} Among(f: Datagram, gs: seq<Datagram>, x: int)
    requires f in gs && Holds(PieceOf(f), x)
    ensures Covers(PiecesOf(gs), x)
  {
    var i :| 0 <= i < |gs| && gs[i] == f;
    HeldAt(PiecesOf(gs), i, x);
  }

  lemma {:induction false} HeldBy(fs: seq<Datagram>, x: int) returns (i: nat)
    requires Covers(PiecesOf(fs), x)
    ensures i < |fs| && Holds(PieceOf(fs[i]), x)
  {
    assert PiecesOf(fs)[1..] == PiecesOf(fs[1..]);
    if Holds(PieceOf(fs[0]), x) {
      i := 0;
    } else {
      i := HeldBy(fs[1..], x);
      i := i + 1;
    }
  }

  // The datagram is among gs, or else all the fragments it was split into have been delivered,
  // after at most depth more splits.
  ghost predicate Delivered(f: Datagram, gs: seq<Datagram>, depth: nat)
    decreases depth
  {
    || f in gs
    || (depth > 0
        && exists ts :: Tiled(ts, f.off, f.data, f.mf) && forall i :: 0 <= i < |ts| ==> Delivered(ts[i], gs, depth - 1))
  }

  lemma {:induction false} DeliveredHolds(f: Datagram, gs: seq<Datagram>, depth: nat, payload: seq<nat>, x: int)
    requires Delivered(f, gs, depth) && Holds(PieceOf(f), x) && CutOf(f, payload)
    ensures Covers(PiecesOf(gs), x)
    decreases depth
  {
    hide Tiled, Covers;
    if f in gs {
      Among(f, gs, x);
    } else {
      var ts :| Tiled(ts, f.off, f.data, f.mf) && forall i :: 0 <= i < |ts| ==> Delivered(ts[i], gs, depth - 1);
      TiledCut(ts, f.off, f.data, f.mf, payload);
      var i := HeldBy(ts, x);
      DeliveredHolds(ts[i], gs, depth - 1, payload, x);
    }
  }

  lemma {:induction false} SomeDelivered(f: Datagram, gs: seq<Datagram>, depth: nat)
    requires Delivered(f, gs, depth)
    ensures gs != []
    decreases depth
  {
    if f !in gs {
      var ts :| Tiled(ts, f.off, f.data, f.mf) && forall i :: 0 <= i < |ts| ==> Delivered(ts[i], gs, depth - 1);
      SomeDelivered(ts[0], gs, depth - 1);
    }
  }

  // g has come about by splitting f, at most depth times.
  ghost predicate PartOf(g: Datagram, f: Datagram, depth: nat)
    decreases depth
  {
    || g == f
    || (depth > 0
        && exists ts, i :: 0 <= i < |ts| && Tiled(ts, f.off, f.data, f.mf) && PartOf(g, ts[i], depth - 1))
  }

  lemma {:induction false} PartCut(g: Datagram, f: Datagram, depth: nat, payload: seq<nat>)
    requires PartOf(g, f, depth) && CutOf(f, payload)
    ensures CutOf(g, payload)
    decreases depth
  {
    hide Tiled, Covers;
    if g != f {
      var ts, i :| 0 <= i < |ts| && Tiled(ts, f.off, f.data, f.mf) && PartOf(g, ts[i], depth - 1);
      TiledCut(ts, f.off, f.data, f.mf, payload);
      PartCut(g, ts[i], depth - 1, payload);
    }
  }

  // A datagram sent in fragments, each of which may have been fragmented again on the way, is
  // all there once every piece has come in, in whatever order and however often.
  lemma {:induction false} ArrivesWhole(d: Datagram, gs: seq<Datagram>, depth: nat)
    requires d.off == 0 && !d.mf && Delivered(d, gs, depth)
    ensures gs != [] && AllThere(PiecesOf(gs), |d.data|)
  {
    hide Covers;
    SomeDelivered(d, gs, depth);
    forall x | 0 <= x < |d.data| ensures Covers(PiecesOf(gs), x) {
      DeliveredHolds(d, gs, depth, d.data, x);
    }
  }

  ghost predicate PrefixThere(gs: seq<Datagram>, j: nat, total: nat)
    requires j <= |gs|
  {
    j > 0 && AllThere(PiecesOf(gs[..j]), total)
  }

  lemma WholeAlone(gs: seq<Datagram>, k: nat, total: nat)
    requires k < |gs| && gs[k].off == 0 && !gs[k].mf && Fragment(PieceOf(gs[k]), total)
    ensures AllThere(PiecesOf(gs), total)
  {
    forall x | 0 <= x < total ensures Covers(PiecesOf(gs), x) { HeldAt(PiecesOf(gs), k, x); }
  }

  // ipintr on datagrams that carry parts of one payload: hands the payload on exactly when, with
  // datagram k - 1, the last byte of it has come in.
  method Deliver(gs: seq<Datagram>, ghost payload: seq<nat>) returns (k: nat, r: Option<seq<nat>>)
    requires forall i :: 0 <= i < |gs| ==> CutOf(gs[i], payload)
    ensures k <= |gs| && forall j :: 0 <= j < k ==> !PrefixThere(gs, j, |payload|)
    ensures if r.None? then k == |gs| && !PrefixThere(gs, k, |payload|)
            else r.value == payload && PrefixThere(gs, k, |payload|)
  {
    hide AllThere, Tiled;
    var q := new FragQueue(payload);
    k, r := 0, None;
    while k < |gs| && r.None?
      invariant k <= |gs| && q.Valid() && fresh(q) && q.payload == payload
      invariant forall j :: 0 <= j < k ==> !PrefixThere(gs, j, |payload|)
      invariant if r.None? then !PrefixThere(gs, k, |payload|) && q.arrived == PiecesOf(gs[..k])
                else r.value == payload && PrefixThere(gs, k, |payload|)
      decreases |gs| - k, r.None?
    {
      var d := gs[k];
      assert PiecesOf(gs[..k + 1]) == PiecesOf(gs[..k]) + [PieceOf(d)];
      if d.mf || d.off > 0 {
        r := q.ReAssemble(Frag(8 * d.off, d.data, d.mf), PieceOf(d));
      } else {
        WholeAlone(gs[..k + 1], k, |payload|);
        r := Some(d.data);
      }
      k := k + 1;
    }
  }

  // From Output to the far end: whatever order, repetition and further splitting the fragments of d
  // meet on their way, nothing but d's payload is handed on, and it is once each byte has arrived.
  method EndToEnd(d: Datagram, gs: seq<Datagram>, ghost depth: nat) returns (k: nat, r: Option<seq<nat>>)
    requires d.off == 0 && !d.mf && forall i :: 0 <= i < |gs| ==> PartOf(gs[i], d, depth)
    ensures r.Some? ==> r.value == d.data && k <= |gs| && PrefixThere(gs, k, |d.data|)
    ensures Delivered(d, gs, depth) ==> r.Some?
    ensures forall j :: 0 <= j < k <= |gs| ==> !PrefixThere(gs, j, |d.data|)
  {
    hide Tiled, Delivered, PartOf, AllThere;
    forall i | 0 <= i < |gs| ensures CutOf(gs[i], d.data) { PartCut(gs[i], d, depth, d.data); }
    k, r := Deliver(gs, d.data);
    if Delivered(d, gs, depth) {
      ArrivesWhole(d, gs, depth);
      assert gs[..|gs|] == gs;
    }
  }
}
