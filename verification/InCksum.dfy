// The Internet checksum over a chain of buffers (netinet/in_cksum.c; sections 1 and 2 of RFC 1071).

module InCksums {
  import opened Words

  // odd: the data begin at an odd address.
  datatype Mbuf = Mbuf(data: seq<nat>, odd: bool)

  predicate ChainOk(chain: seq<Mbuf>) { forall i :: 0 <= i < |chain| ==> Bytes(chain[i].data) }

  // REDUCE: adds the halves of a 32-bit number.
  function Reduce(sum: nat): nat {
    var s := sum / 0x10000 + sum % 0x10000;
    if s > 65535 then s - 65535 else s
  }

  // x and y have the same end-around sum.
  predicate Same(x: nat, y: nat) { x % 65535 == y % 65535 && (x == 0 <==> y == 0) }

  lemma SameSum(x: nat, y: nat)
    requires Same(x, y)
    ensures EndAround(x) == EndAround(y)
  {
    if x > 0 { Predecessor(x); Predecessor(y); }
  }

  lemma Predecessor(x: nat)
    requires x > 0
    ensures (x - 1) % 65535 == (if x % 65535 == 0 then 65534 else x % 65535 - 1)
  {
  }

  lemma ReduceIs(sum: nat)
    requires sum < 0x1_0000_0000
    ensures Reduce(sum) == EndAround(sum) <= 65535 && Same(Reduce(sum), sum)
  {
    var hi, lo := sum / 0x10000, sum % 0x10000;
    assert sum == 65535 * hi + (hi + lo);
    ModTimes(hi + lo, hi);
    ModTimes(Reduce(sum), if hi + lo > 65535 then 1 else 0);
    var r := Reduce(sum);
    assert r % 65535 == sum % 65535 && (r == 0 <==> sum == 0);
    SameSum(r, sum);
    assert r > 0 ==> (r - 1) % 65535 == r - 1;
  }

  lemma {:induction false} ModTimes(r: nat, k: nat)
    ensures (65535 * k + r) % 65535 == r % 65535
  {
    if k > 0 {
      ModTimes(r, k - 1);
      assert 65535 * k + r == (65535 * (k - 1) + r) + 65535;
    }
  }

  lemma SameAdd(x: nat, y: nat, n: nat)
    requires Same(x, y)
    ensures Same(x + n, y + n)
  {
    var p, q := x / 65535, y / 65535;
    assert x == 65535 * p + x % 65535 && y == 65535 * q + y % 65535;
    ModTimes(x % 65535 + n, p);
    ModTimes(y % 65535 + n, q);
  }

  lemma SameTimes(x: nat, y: nat)
    requires Same(x, y)
    ensures Same(256 * x, 256 * y)
  {
    var p, q := x / 65535, y / 65535;
    assert x == 65535 * p + x % 65535 && y == 65535 * q + y % 65535;
    assert 256 * x == 65535 * (256 * p) + 256 * (x % 65535) && 256 * y == 65535 * (256 * q) + 256 * (y % 65535);
    ModTimes(256 * (x % 65535), 256 * p);
    ModTimes(256 * (y % 65535), 256 * q);
  }

  // ---- sums of bytes -------------------------------------------------------------------------------------

  lemma {:induction false} SumJoin(big: bool, a: seq<nat>, b: seq<nat>)
    requires |a| % 2 == 0
    ensures Sum(big, a + b) == Sum(big, a) + Sum(big, b)
  {
    if a == [] {
      assert a + b == b;
    } else {
      assert (a + b)[2..] == a[2..] + b;
      SumJoin(big, a[2..], b);
    }
  }

  // At an odd place every byte counts for the other half of a word.
  lemma {:induction false} SumShift(big: bool, c: nat, b: seq<nat>)
    ensures Sum(big, [c] + b) == Word(big, c, 0) + Sum(!big, b)
    decreases |b|
  {
    var s := [c] + b;
    if |b| == 1 {
      assert s[2..] == [];
    } else if |b| > 1 {
      assert s[2..] == [b[1]] + b[2..];
      SumShift(big, b[1], b[2..]);
    }
  }

  // Exchanging the bytes of every word multiplies the end-around sum by 256.
  lemma {:induction false} SumSwap(big: bool, s: seq<nat>)
    ensures Same(256 * Sum(big, s), Sum(!big, s))
  {
    if |s| == 1 {
      SwapWord(big, s[0], 0);
    } else if s != [] {
      SumSwap(big, s[2..]);
      SwapWord(big, s[0], s[1]);
      var x, y, w, v := 256 * Sum(big, s[2..]), Sum(!big, s[2..]), 256 * Word(big, s[0], s[1]), Word(!big, s[0], s[1]);
      SameAdd(x, y, w);
      SameAdd(w, v, y);
    }
  }

  lemma SwapWord(big: bool, b0: nat, b1: nat)
    ensures Same(256 * Word(big, b0, b1), Word(!big, b0, b1))
  {
    if big {
      assert 256 * Word(big, b0, b1) == 65535 * b0 + Word(!big, b0, b1);
      ModTimes(Word(!big, b0, b1), b0);
    } else {
      assert 256 * Word(big, b0, b1) == 65535 * b1 + Word(!big, b0, b1);
      ModTimes(Word(!big, b0, b1), b1);
    }
  }

  lemma {:induction false} SumBound(big: bool, s: seq<nat>)
    requires Bytes(s)
    ensures Sum(big, s) <= 32768 * (|s| + 1)
    ensures |s| % 2 == 0 ==> Sum(big, s) <= 32768 * |s|
  {
    if |s| > 1 { SumBound(big, s[2..]); }
  }

  // ---- the loops -----------------------------------------------------------------------------------------

  // Between buffers: done has been read.  With an odd number of bytes mlen is -1 and the byte c0 is
  // not in the sum yet; t is the plain number whose end-around sum the accumulator has.
  ghost predicate State(big: bool, done: seq<nat>, sum: nat, mlen: int, c0: nat, t: nat) {
    && Same(sum, t) && sum <= 0x100_0000 + 32768 * (if mlen == -1 then |done| - 1 else |done|)
    && (mlen == -1 <==> |done| % 2 == 1)
    && t + (if mlen == -1 then Word(big, c0, 0) else 0) == Sum(big, done)
    && (mlen == -1 ==> c0 < 0x100)
  }

  function At(big: bool, data: seq<nat>, i: nat): nat
    requires i + 1 < |data|
  {
    Word(big, data[i], data[i + 1])
  }

  lemma {:induction false} SumTwo(big: bool, data: seq<nat>, i: nat, j: nat)
    requires i <= j && j + 2 <= |data| && (j - i) % 2 == 0
    ensures Sum(big, data[i..j + 2]) == Sum(big, data[i..j]) + At(big, data, j)
  {
    assert data[i..j + 2] == data[i..j] + [data[j], data[j + 1]];
    SumJoin(big, data[i..j], [data[j], data[j + 1]]);
    assert [data[j], data[j + 1]][2..] == [];
  }

  lemma SumFour(big: bool, data: seq<nat>, i: nat, j: nat)
    requires i <= j && j + 8 <= |data| && (j - i) % 2 == 0
    ensures Sum(big, data[i..j + 8]) == Sum(big, data[i..j]) + At(big, data, j) + At(big, data, j + 2)
        + At(big, data, j + 4) + At(big, data, j + 6)
  {
    hide Sum, Word;
    SumTwo(big, data, i, j);
    SumTwo(big, data, i, j + 2);
    SumTwo(big, data, i, j + 4);
    SumTwo(big, data, i, j + 6);
  }

  lemma SumSixteen(big: bool, data: seq<nat>, i: nat, j: nat)
    requires i <= j && j + 32 <= |data| && (j - i) % 2 == 0
    ensures Sum(big, data[i..j + 32]) == Sum(big, data[i..j])
      + At(big, data, j) + At(big, data, j + 2) + At(big, data, j + 4) + At(big, data, j + 6)
      + At(big, data, j + 8) + At(big, data, j + 10) + At(big, data, j + 12) + At(big, data, j + 14)
      + At(big, data, j + 16) + At(big, data, j + 18) + At(big, data, j + 20) + At(big, data, j + 22)
      + At(big, data, j + 24) + At(big, data, j + 26) + At(big, data, j + 28) + At(big, data, j + 30)
  {
    hide Sum, At;
    SumFour(big, data, i, j);
    SumFour(big, data, i, j + 8);
    SumFour(big, data, i, j + 16);
    SumFour(big, data, i, j + 24);
  }

  // The unrolled loops: 32 and then 8 bytes at a time, as far as they go.
  method Unrolled(big: bool, data: seq<nat>, start: nat, mlen0: nat, sum0: nat) returns (sum: nat, w: nat, mlen: nat)
    requires start + mlen0 <= |data|
    ensures start <= w <= |data| && mlen < 8 && w + mlen == start + mlen0 && (w - start) % 2 == 0
    ensures sum == sum0 + Sum(big, data[start..w])
  {
    hide Word, Sum, At;
    var n: int;
    sum, w, n := sum0, start, mlen0;
    EmptySum(big, data, start);
    n := n - 32;
    while n >= 0
      invariant -32 <= n && start <= w && w + n + 32 == start + mlen0 && (w - start) % 2 == 0
      invariant sum == sum0 + Sum(big, data[start..w])
      decreases n
    {
      SumSixteen(big, data, start, w);
      sum := sum + At(big, data, w) + At(big, data, w + 2) + At(big, data, w + 4) + At(big, data, w + 6);
      sum := sum + At(big, data, w + 8) + At(big, data, w + 10) + At(big, data, w + 12) + At(big, data, w + 14);
      sum := sum + At(big, data, w + 16) + At(big, data, w + 18) + At(big, data, w + 20) + At(big, data, w + 22);
      sum := sum + At(big, data, w + 24) + At(big, data, w + 26) + At(big, data, w + 28) + At(big, data, w + 30);
      w := w + 32;
      n := n - 32;
    }
    n := n + 32 - 8;
    while n >= 0
      invariant -8 <= n < 24 && start <= w && w + n + 8 == start + mlen0 && (w - start) % 2 == 0
      invariant sum == sum0 + Sum(big, data[start..w])
      decreases n
    {
      SumFour(big, data, start, w);
      sum := sum + At(big, data, w) + At(big, data, w + 2) + At(big, data, w + 4) + At(big, data, w + 6);
      w := w + 8;
      n := n - 8;
    }
    mlen := n + 8;
  }

  lemma EmptySum(big: bool, data: seq<nat>, i: nat)
    requires i <= |data|
    ensures Sum(big, data[i..i]) == 0
  {
  }

  // The words that are left; -1: one more byte, -2: none.
  method Pairs(big: bool, data: seq<nat>, start: nat, mlen0: nat, sum0: nat) returns (sum: nat, w: nat, mlen: int)
    requires start + mlen0 <= |data|
    ensures start <= w <= |data| && w + mlen + 2 == start + mlen0 && (w - start) % 2 == 0 && (mlen == -1 || mlen == -2)
    ensures sum == sum0 + Sum(big, data[start..w])
  {
    hide Word, Sum;
    sum, w, mlen := sum0, start, mlen0 - 2;
    EmptySum(big, data, start);
    while mlen >= 0
      invariant -2 <= mlen && start <= w && w + mlen + 2 == start + mlen0 && (w - start) % 2 == 0
      invariant sum == sum0 + Sum(big, data[start..w])
      decreases mlen
    {
      SumTwo(big, data, start, w);
      sum := sum + At(big, data, w);
      w := w + 2;
      mlen := mlen - 2;
    }
  }

  lemma {:induction false} SumPart(big: bool, data: seq<nat>, i: nat, j: nat, k: nat)
    requires i <= j <= k <= |data| && (j - i) % 2 == 0
    ensures Sum(big, data[i..k]) == Sum(big, data[i..j]) + Sum(big, data[j..k])
  {
    assert data[i..k] == data[i..j] + data[j..k];
    SumJoin(big, data[i..j], data[j..k]);
  }

  lemma PartBound(big: bool, data: seq<nat>, i: nat, j: nat)
    requires i <= j <= |data| && (j - i) % 2 == 0 && Bytes(data)
    ensures Sum(big, data[i..j]) <= 32768 * (j - i)
  {
    SumBound(big, data[i..j]);
  }

  // The data from w0 on, when they begin at an even address.
  method AddEven(big: bool, data: seq<nat>, w0: nat, mlen0: nat, sum0: nat, ghost done: seq<nat>)
    returns (sum: nat, mlen: int, c0: nat, ghost t: nat)
    requires w0 + mlen0 <= |data| && Bytes(data) && |done| % 2 == 0 && |done| + mlen0 <= 65535
    requires State(big, done, sum0, 0, 0, Sum(big, done))
    ensures State(big, done + data[w0..w0 + mlen0], sum, mlen, c0, t)
  {
    hide Sum, EndAround, Reduce, Same, Word;
    var w, n;
    sum, w, n := Unrolled(big, data, w0, mlen0, sum0);
    c0, t := 0, Sum(big, done) + Sum(big, data[w0..w]);
    SameAdd(sum0, Sum(big, done), Sum(big, data[w0..w]));
    PartBound(big, data, w0, w);
    if n == 0 {
      SumJoin(big, done, data[w0..w]);
      return sum, 0, 0, t;
    }
    ghost var r0, w1 := sum, w;
    ReduceIs(sum);
    sum := Reduce(sum);
    SameChain(sum, r0, t);
    var s1;
    s1, w, mlen := Pairs(big, data, w, n, sum);
    SameAdd(sum, t, Sum(big, data[w1..w]));
    PartBound(big, data, w1, w);
    sum, t := s1, t + Sum(big, data[w1..w]);
    SumPart(big, data, w0, w1, w);
    SumJoin(big, done, data[w0..w]);
    if mlen == -1 {
      c0 := data[w];
      LastByte(big, done, data, w0, w);
    } else {
      assert w == w0 + mlen0;
    }
  }

  lemma SameChain(x: nat, y: nat, z: nat)
    requires Same(x, y) && Same(y, z)
    ensures Same(x, z)
  {
  }

  lemma {:induction false} LastByte(big: bool, done: seq<nat>, data: seq<nat>, w0: nat, w: nat)
    requires w0 <= w < |data| && (w - w0) % 2 == 0 && |done| % 2 == 0
    ensures Sum(big, done + data[w0..w + 1]) == Sum(big, done) + Sum(big, data[w0..w]) + Word(big, data[w], 0)
    ensures |done + data[w0..w + 1]| % 2 == 1
  {
    SumJoin(big, done, data[w0..w + 1]);
    SumPart(big, data, w0, w, w + 1);
    assert data[w..w + 1] == [data[w]];
  }

  // Back from the swapped sum: x stands for 256 s + r, and so 256 x for s + r with its words exchanged.
  lemma SwapBack(big: bool, x: nat, s: nat, b: seq<nat>)
    requires Same(x, 256 * s + Sum(big, b))
    ensures Same(256 * x, s + Sum(!big, b))
  {
    hide Sum;
    var r := Sum(big, b);
    SameTimes(x, 256 * s + r);
    SumSwap(big, b);
    assert Same(65536 * s, s) by {
      assert 65536 * s == 65535 * s + s;
      ModTimes(s, s);
    }
    SameAdd(65536 * s, s, 256 * r);
    SameAdd(256 * r, Sum(!big, b), s);
    assert 256 * (256 * s + r) == 65536 * s + 256 * r;
  }

  lemma {:induction false} SwappedBytes(big: bool, done: seq<nat>, data: seq<nat>, w0: nat, w: nat)
    requires w0 < w <= |data| && (w - w0) % 2 == 1 && |done| % 2 == 0
    ensures Sum(big, done + data[w0..w]) == Sum(big, done) + Word(big, data[w0], 0) + Sum(!big, data[w0 + 1..w])
    ensures w < |data| ==>
      Sum(big, done + data[w0..w + 1]) == Sum(big, done) + Word(big, data[w0], data[w]) + Sum(!big, data[w0 + 1..w])
  {
    SumJoin(big, done, data[w0..w]);
    assert data[w0..w] == [data[w0]] + data[w0 + 1..w];
    SumShift(big, data[w0], data[w0 + 1..w]);
    if w < |data| {
      SumJoin(big, done, data[w0..w + 1]);
      assert data[w0..w + 1] == [data[w0]] + data[w0 + 1..w + 1];
      SumShift(big, data[w0], data[w0 + 1..w + 1]);
      SumPart(!big, data, w0 + 1, w, w + 1);
      assert data[w..w + 1] == [data[w]];
    }
  }

  // All whole words from w0 on; x is what the accumulator stands for at the start.
  method AllWords(big: bool, data: seq<nat>, w0: nat, mlen0: nat, sum0: nat, ghost x: nat)
    returns (sum: nat, w: nat, mlen: int)
    requires w0 + mlen0 <= |data| && Bytes(data) && mlen0 <= 65535 && sum0 <= 0x100_0000 && Same(sum0, x)
    ensures w0 <= w <= |data| && w + mlen + 2 == w0 + mlen0 && (w - w0) % 2 == 0 && (mlen == -1 || mlen == -2)
    ensures Same(sum, x + Sum(big, data[w0..w])) && sum < 0x1_0000_0000
  {
    hide Sum, EndAround, Reduce, Same, Word;
    var n;
    sum, w, n := Unrolled(big, data, w0, mlen0, sum0);
    SameAdd(sum0, x, Sum(big, data[w0..w]));
    PartBound(big, data, w0, w);
    ReduceIs(sum);
    SameChain(Reduce(sum), sum, x + Sum(big, data[w0..w]));
    ghost var s, w1 := Reduce(sum), w;
    sum, w, mlen := Pairs(big, data, w, n, Reduce(sum));
    SameAdd(s, x + Sum(big, data[w0..w1]), Sum(big, data[w1..w]));
    PartBound(big, data, w1, w);
    SumPart(big, data, w0, w1, w);
  }

  // The data from w0 on, when they begin at an odd address: the first byte is set aside and the sum
  // is kept with its bytes exchanged.
  method AddOdd(big: bool, data: seq<nat>, w0: nat, mlen0: nat, sum0: nat, ghost done: seq<nat>)
    returns (sum: nat, mlen: int, c0: nat, ghost t: nat)
    requires 0 < mlen0 && w0 + mlen0 <= |data| && Bytes(data) && |done| % 2 == 0 && |done| + mlen0 <= 65535
    requires State(big, done, sum0, 0, 0, Sum(big, done))
    ensures State(big, done + data[w0..w0 + mlen0], sum, mlen, c0, t)
  {
    hide Sum, EndAround, Reduce, Same, Word;
    ghost var s := Sum(big, done);
    ReduceIs(sum0);
    SameChain(Reduce(sum0), sum0, s);
    SameTimes(Reduce(sum0), s);
    sum := Reduce(sum0) * 256;
    c0 := data[w0];
    var w;
    sum, w, mlen := AllWords(big, data, w0 + 1, mlen0 - 1, sum, 256 * s);
    ReduceIs(sum);
    SameChain(Reduce(sum), sum, 256 * s + Sum(big, data[w0 + 1..w]));
    SwapBack(big, Reduce(sum), s, data[w0 + 1..w]);
    SwappedBytes(big, done, data, w0, w);
    assert |done + data[w0..w0 + mlen0]| == |done| + mlen0;
    sum, t := Reduce(sum) * 256, s + Sum(!big, data[w0 + 1..w]);
    if mlen == -1 {
      SameAdd(sum, t, Word(big, c0, data[w]));
      WordBound(big, c0, data[w]);
      sum, t := sum + Word(big, c0, data[w]), t + Word(big, c0, data[w]);
      assert w + 1 == w0 + mlen0;
      mlen := 0;
    } else {
      assert w == w0 + mlen0;
      mlen := -1;
    }
  }

  lemma WordBound(big: bool, b0: nat, b1: nat)
    requires b0 < 0x100 && b1 < 0x100
    ensures Word(big, b0, b1) <= 65535
  {
  }

  function Min(x: nat, y: nat): nat { if x < y then x else y }

  // One buffer.
  method AddMbuf(big: bool, m: Mbuf, len0: nat, sum0: nat, mlen0: int, c: nat, ghost done: seq<nat>, ghost t0: nat)
    returns (sum: nat, len: nat, mlen: int, c0: nat, ghost t: nat)
    requires m.data != [] && Bytes(m.data) && len0 > 0 && |done| + len0 <= 65535
    requires State(big, done, sum0, mlen0, c, t0)
    ensures State(big, done + m.data[..Min(|m.data|, len0)], sum, mlen, c0, t)
    ensures len == len0 - Min(|m.data|, len0)
  {
    hide Sum, Same, Word;
    var w := 0;
    sum, len, mlen, c0 := sum0, len0, |m.data|, c;
    ghost var before := done;
    if mlen0 == -1 {
      NextByte(big, done, sum, c, t0, m.data[0]);
      sum := sum + Word(big, c, m.data[0]);
      before := done + [m.data[0]];
      w, mlen, len := 1, |m.data| - 1, len - 1;
    }
    if len < mlen {
      mlen := len;
    }
    len := len - mlen;
    assert before + m.data[w..w + mlen] == done + m.data[..Min(|m.data|, len0)];
    assert State(big, before, sum, 0, 0, Sum(big, before)) by {
      if mlen0 != -1 { StateEven(big, done, sum, mlen0, c, t0); }
    }
    if (m.odd <==> w % 2 == 0) && mlen > 0 {
      sum, mlen, c0, t := AddOdd(big, m.data, w, mlen, sum, before);
    } else {
      sum, mlen, c0, t := AddEven(big, m.data, w, mlen, sum, before);
    }
  }

  lemma StateEven(big: bool, done: seq<nat>, sum: nat, mlen: int, c: nat, t: nat)
    requires State(big, done, sum, mlen, c, t) && mlen != -1
    ensures State(big, done, sum, 0, 0, Sum(big, done))
  {
  }

  // The second byte of a word that spans two buffers.
  lemma {:induction false} NextByte(big: bool, done: seq<nat>, sum: nat, c: nat, t: nat, b: nat)
    requires State(big, done, sum, -1, c, t) && b < 0x100
    ensures State(big, done + [b], sum + Word(big, c, b), 0, 0, Sum(big, done + [b]))
  {
    var n := |done| - 1;
    var last := done[n];
    assert done == done[..n] + [last] && done + [b] == done[..n] + [last, b];
    SumJoin(big, done[..n], [last]);
    SumJoin(big, done[..n], [last, b]);
    assert [last, b][2..] == [];
    SameAdd(sum, t, Word(big, c, b));
    WordBound(big, c, b);
  }

  // ---- the checksum ------------------------------------------------------------------------------------------

  function AllBytes(chain: seq<Mbuf>): seq<nat> {
    if chain == [] then [] else chain[0].data + AllBytes(chain[1..])
  }

  function First(n: nat, s: seq<nat>): seq<nat> { if n < |s| then s[..n] else s }

  // in_cksum: the complement of the end-around sum of the first len bytes, however they are
  // spread over buffers and wherever these lie.
  method InCksum(big: bool, chain: seq<Mbuf>, length: nat) returns (r: nat)
    requires ChainOk(chain) && length <= 65535
    ensures r == 0xffff - EndAround(Sum(big, First(length, AllBytes(chain))))
  {
    hide Sum, Reduce, EndAround, State, AllBytes;
    var sum: nat, len: nat, mlen, c0: nat, i := 0, length, 0, 0, 0;
    ghost var done, t: nat := [], 0;
    ghost var all := AllBytes(chain);
    Start(big, chain);
    while i < |chain| && len > 0
      invariant i <= |chain| && State(big, done, sum, mlen, c0, t) && |done| + len == length
      invariant done + AllBytes(chain[i..]) == all || (len == 0 && length <= |all| && done == all[..length])
      decreases |chain| - i
    {
      var m := chain[i];
      NextBuffer(chain, i);
      if m.data != [] {
        ghost var was, n := done, Min(|m.data|, len);
        sum, len, mlen, c0, t := AddMbuf(big, m, len, sum, mlen, c0, done, t);
        done := done + m.data[..n];
        Progress(was, m.data, AllBytes(chain[i + 1..]), all, n, length);
      }
      i := i + 1;
    }
    assert done == First(length, all) by { Finished(done, chain, i, length); }
    r := Finish(big, done, sum, mlen, c0, t);
  }

  lemma Start(big: bool, chain: seq<Mbuf>)
    ensures State(big, [], 0, 0, 0, 0) && [] + AllBytes(chain[0..]) == AllBytes(chain)
  {
    assert chain[0..] == chain;
  }

  lemma NextBuffer(chain: seq<Mbuf>, i: nat)
    requires i < |chain|
    ensures AllBytes(chain[i..]) == chain[i].data + AllBytes(chain[i + 1..])
    ensures chain[i].data == [] ==> AllBytes(chain[i..]) == AllBytes(chain[i + 1..])
  {
    assert chain[i..][0] == chain[i] && chain[i..][1..] == chain[i + 1..];
  }

  lemma Progress(was: seq<nat>, data: seq<nat>, rest: seq<nat>, all: seq<nat>, n: nat, length: nat)
    requires was + (data + rest) == all && n <= |data| && |was| + n <= length && (n < |data| ==> |was| + n == length)
    ensures was + data[..n] + rest == all
            || (length <= |all| && |was| + n == length && was + data[..n] == all[..length])
  {
    if n == |data| {
      assert data[..n] == data && was + data + rest == was + (data + rest);
    } else {
      assert was + data[..n] == all[..length];
    }
  }

  lemma Finished(done: seq<nat>, chain: seq<Mbuf>, i: nat, length: nat)
    requires i <= |chain| && |done| <= length && (i == |chain| || |done| == length)
    requires var all := AllBytes(chain);
      done + AllBytes(chain[i..]) == all || (length <= |all| && |done| == length && done == all[..length])
    ensures done == First(length, AllBytes(chain))
  {
    if i == |chain| { assert chain[i..] == [] && done + [] == done; }
  }

  // A last odd byte counts as if a zero followed it.
  method Finish(big: bool, ghost done: seq<nat>, sum0: nat, mlen: int, c0: nat, ghost t: nat) returns (r: nat)
    requires State(big, done, sum0, mlen, c0, t) && |done| <= 65535
    ensures r == 0xffff - EndAround(Sum(big, done))
  {
    hide Sum, Reduce, EndAround;
    var sum := sum0;
    if mlen == -1 {
      SameAdd(sum, t, Word(big, c0, 0));
      WordBound(big, c0, 0);
      sum := sum + Word(big, c0, 0);
    }
    ReduceIs(sum);
    SameSum(sum, Sum(big, done));
    r := 0xffff - Reduce(sum);
  }

  // A datagram that carries its own checksum in a field that was zero has the checksum 0.
  lemma {:induction false} ChecksumVerifies(big: bool, a: seq<nat>, x: nat, y: nat, b: seq<nat>)
    requires |a| % 2 == 0 && Word(big, x, y) == 0xffff - EndAround(Sum(big, a + [0, 0] + b))
    ensures 0xffff - EndAround(Sum(big, a + [x, y] + b)) == 0
  {
    var s, t := Sum(big, a + [0, 0] + b), Sum(big, a + [x, y] + b);
    assert t == s + Word(big, x, y) by {
      FieldAt(big, a, 0, 0, b);
      FieldAt(big, a, x, y, b);
    }
    var e := EndAround(s);
    if s > 0 {
      assert s == 65535 * ((s - 1) / 65535) + e;
      assert t == 65535 * ((s - 1) / 65535) + 65535;
      ModTimes(65534, (s - 1) / 65535);
    }
  }

  lemma {:induction false} FieldAt(big: bool, a: seq<nat>, x: nat, y: nat, b: seq<nat>)
    requires |a| % 2 == 0
    ensures Sum(big, a + [x, y] + b) == Sum(big, a) + Word(big, x, y) + Sum(big, b)
  {
    SumJoin(big, a + [x, y], b);
    SumJoin(big, a, [x, y]);
    assert [x, y][2..] == [];
  }
}
