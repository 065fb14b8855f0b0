// The bytes of contiguous masks, and the comparisons rn_addroute sorts routes of equal keys by.

module RadixMasks {

  // normal_chars: a byte with k leading ones.
  function Normal(k: nat): bv8 {
    match k
    case 0 => 0
    case 1 => 0x80
    case 2 => 0xc0
    case 3 => 0xe0
    case 4 => 0xf0
    case 5 => 0xf8
    case 6 => 0xfc
    case 7 => 0xfe
    case _ => 0xff
  }

  // How many of the ones fall into a byte that d bits of ones reach or go past.
  function Within(d: int): nat { if d <= 0 then 0 else if d >= 8 then 8 else d }

  function ByteLen(skip: nat, len: nat): nat { if len == 0 then 0 else skip + (len + 7) / 8 }

  // A mask of len ones as rn_addmask stores it: the first byte, here the length of the sequence, then
  // ones up to the first byte that counts, then the mask without trailing zeros.
  function Stored(skip: nat, len: nat): (m: seq<bv8>)
    ensures |m| == ByteLen(skip, len)
    ensures forall i :: 0 <= i < |m| ==> m[i] == ByteAt(skip, len, i)
  {
    seq(ByteLen(skip, len), i requires 0 <= i < ByteLen(skip, len) => ByteAt(skip, len, i))
  }

  function ByteAt(skip: nat, len: nat, i: int): bv8 {
    if i < skip then 0xff else Normal(Within(len - 8 * (i - skip)))
  }

  lemma NormalOrder(j: nat, k: nat)
    requires j <= 8 && k <= 8
    ensures (Normal(k) & !Normal(j) != 0) <==> k > j
    ensures Normal(k) > Normal(j) <==> k > j
    ensures Normal(k) == Normal(j) <==> k == j
  {
  }

  // Byte i of two masks.
  lemma ByteOrder(skip: nat, a: nat, b: nat, i: nat)
    ensures var x, y := ByteAt(skip, a, i), ByteAt(skip, b, i);
      && ((y & !x != 0) <==> y > x) && (y > x ==> b > a) && (x == y || x > y || y > x)
  {
    NormalOrder(Within(a - 8 * (i - skip)), Within(b - 8 * (i - skip)));
    NormalOrder(Within(b - 8 * (i - skip)), Within(a - 8 * (i - skip)));
  }

  // Masks of one length that differ do so in their last byte.
  lemma LastByte(skip: nat, a: nat, b: nat)
    requires a < b && ByteLen(skip, a) == ByteLen(skip, b)
    ensures var i := ByteLen(skip, b) - 1; i >= skip && ByteAt(skip, b, i) > ByteAt(skip, a, i)
  {
    var i := ByteLen(skip, b) - 1;
    NormalOrder(Within(a - 8 * (i - skip)), Within(b - 8 * (i - skip)));
  }

  // Where the shorter sequence ends, both have ones alone or the longer mask more of them; there is
  // a one in every byte of a mask.
  lemma NoZeros(skip: nat, a: nat, i: nat)
    requires i < ByteLen(skip, a)
    ensures ByteAt(skip, a, i) != 0
  {
    NormalOrder(0, Within(a - 8 * (i - skip)));
  }

  // The bytes both masks have, from the second on: whether n has a one that m has not, and
  // whether they are the same.
  method CompareBytes(m: seq<bv8>, n: seq<bv8>, lim: nat, ghost skip: nat, ghost a: nat, ghost b: nat)
    returns (outside: bool, equal: bool, i: nat)
    requires m == Stored(skip, a) && n == Stored(skip, b) && lim <= |m| && lim <= |n|
    ensures outside ==> b > a
    ensures !outside ==> i == (if lim > 1 then lim else 1) && (equal <==> forall k :: 1 <= k < lim ==> m[k] == n[k])
    ensures !outside && !equal ==> a > b
  {
    hide Normal, Within, ByteAt;
    outside, equal, i := false, true, 1;
    while i < lim
      invariant 1 <= i && (i <= lim || i == 1)
      invariant equal <==> forall k :: 1 <= k < i ==> m[k] == n[k]
      invariant !equal ==> a > b
    {
      ByteOrder(skip, a, b, i);
      ByteOrder(skip, b, a, i);
      if n[i] & !m[i] != 0 {
        outside := true;
        return;
      }
      if n[i] != m[i] {
        equal := false;
      }
      i := i + 1;
    }
  }

  // Whether there is a one in bytes from .. to.  The source reads on behind the mask when the other
  // one is empty, but for the one it meets first.
  method AnyOnes(m: seq<bv8>, from: nat, to: int) returns (r: bool)
    requires to <= |m| || (from < |m| && m[from] != 0)
    ensures r <==> exists k :: from <= k < to && k < |m| && m[k] != 0
  {
    var i := from;
    while i < to
      invariant from <= i && (from <= to ==> i <= to) && forall k :: from <= k < i ==> k < |m| && m[k] == 0
    {
      if m[i] != 0 {
        return true;
      }
      i := i + 1;
    }
    r := false;
  }

  // rn_refines: m has all the ones of n, and more.
  method Refines(m: seq<bv8>, n: seq<bv8>, ghost skip: nat, ghost a: nat, ghost b: nat) returns (r: bool)
    requires skip > 0 && m == Stored(skip, a) && n == Stored(skip, b)
    ensures r <==> a > b
  {
    hide Normal, Within, ByteAt;
    var longer := |n| - |m|;
    AllOnes(skip, a);
    AllOnes(skip, b);
    var outside, equal, i := CompareBytes(m, n, if longer > 0 then |m| else |n|, skip, a, b);
    if outside {
      return false;
    }
    assert i < |n| ==> n[i] != 0;
    assert i < |m| ==> m[i] != 0;
    var more := AnyOnes(n, i, |n|);
    if more {
      Longer(skip, a, b);
      return false;
    }
    if equal && longer < 0 {
      more := AnyOnes(m, i, i - longer);
      if more {
        Longer(skip, b, a);
        return true;
      }
    }
    if equal { SameBytes(m, n, skip, a, b); }
    r := !equal;
  }

  lemma SameBytes(m: seq<bv8>, n: seq<bv8>, skip: nat, a: nat, b: nat)
    requires skip > 0 && m == Stored(skip, a) && n == Stored(skip, b)
    requires |m| == |n| && forall k :: 1 <= k < |m| ==> m[k] == n[k]
    ensures a == b
  {
    if a < b {
      LastByte(skip, a, b);
    } else if b < a {
      LastByte(skip, b, a);
    }
  }

  lemma AllOnes(skip: nat, a: nat)
    ensures forall i :: 0 <= i < ByteLen(skip, a) ==> ByteAt(skip, a, i) != 0
    ensures skip > 0 ==> ByteLen(skip, a) != 1
  {
    forall i | 0 <= i < ByteLen(skip, a) ensures ByteAt(skip, a, i) != 0 { NoZeros(skip, a, i); }
  }

  lemma Longer(skip: nat, a: nat, b: nat)
    ensures ByteLen(skip, a) < ByteLen(skip, b) ==> a < b
  {
  }

  // rn_lexobetter
  method LexoBetter(m: seq<bv8>, n: seq<bv8>, ghost skip: nat, ghost a: nat, ghost b: nat) returns (r: bool)
    requires skip > 0 && m == Stored(skip, a) && n == Stored(skip, b)
    ensures r <==> a > b
  {
    hide Normal, Within, ByteAt;
    Longer(skip, b, a);
    Longer(skip, a, b);
    if |m| > |n| {
      return true;
    }
    if |m| == |n| {
      var i := 1;
      while i < |m|
        invariant 1 <= i && (i <= |m| || i == 1) && forall k :: 1 <= k < i ==> m[k] <= n[k]
      {
        ByteOrder(skip, b, a, i);
        if m[i] > n[i] {
          return true;
        }
        i := i + 1;
      }
      if b < a { LastByte(skip, b, a); }
    }
    r := false;
  }

  // rn_b of the leaf rn_addmask returns: -1 - index of the mask, but for the empty one, which is the
  // leaf of all zeros that rn_inithead has put there.
  function LeafBit(skip: nat, len: nat): int { if len == 0 then -1 else -1 - (8 * skip + len) }

  // The test of rn_addroute: for contiguous masks the index, rn_refines and rn_lexobetter all say
  // which one has more ones.
  method Precedes(m: seq<bv8>, bLeaf: int, n: seq<bv8>, b: int, ghost skip: nat, ghost k: nat, ghost l: nat)
    returns (r: bool)
    requires skip > 0 && m == Stored(skip, k) && n == Stored(skip, l)
    requires bLeaf == LeafBit(skip, k) && b == LeafBit(skip, l)
    ensures r <==> k > l
  {
    r := bLeaf < b;
    if !r {
      r := Refines(m, n, skip, k, l);
    }
    if !r {
      r := LexoBetter(m, n, skip, k, l);
    }
  }

  // ---- rn_addmask: is a mask contiguous? --------------------------------------------------------

  // Bit k of a byte, from the left.
  function BitAt(k: nat): bv8 {
    match k
    case 0 => 0x80
    case 1 => 0x40
    case 2 => 0x20
    case 3 => 0x10
    case 4 => 8
    case 5 => 4
    case 6 => 2
    case _ => 1
  }

  lemma NextBit(x: bv8, k: nat)
    requires k < 8 && x & Normal(k) == Normal(k)
    ensures BitAt(k) & x != 0 ==> x & Normal(k + 1) == Normal(k + 1) && (k < 7 ==> BitAt(k) >> 1 == BitAt(k + 1))
    ensures BitAt(k) & x != 0 && k == 7 ==> x == 0xff
    ensures BitAt(k) & x == 0 ==> forall j :: 0 <= j <= 8 && x == Normal(j) ==> j == k
  {
    forall j | 0 <= j <= 8 && x == Normal(j) && BitAt(k) & x == 0 ensures j == k {
      NormalBit(j, k);
    }
  }

  lemma NormalBit(j: nat, k: nat)
    requires j <= 8 && k < 8
    ensures (BitAt(k) & Normal(j) != 0) <==> j > k
    ensures Normal(j) & Normal(k) == Normal(k) <==> j >= k
  {
  }

  // How many ones a byte begins with.
  method LeadingOnes(x: bv8) returns (b: nat)
    requires x != 0xff
    ensures b < 8 && forall j :: 0 <= j <= 8 && x == Normal(j) ==> j == b
  {
    hide Normal, BitAt;
    var j: bv8;
    j, b := 0x80, 0;
    FirstBit(x);
    while j & x != 0
      invariant b < 8 && j == BitAt(b) && x & Normal(b) == Normal(b)
      decreases 8 - b
    {
      NextBit(x, b);
      b, j := b + 1, j >> 1;
    }
    NextBit(x, b);
  }

  lemma FirstBit(x: bv8)
    ensures BitAt(0) == 0x80 && x & Normal(0) == Normal(0)
  {
  }

  // rn_addmask on a mask without trailing zeros: its index, and whether it is contiguous
  // (RNF_NORMAL), which it is exactly when it is some number of ones.
  method IndexMask(mask: seq<bv8>, skip: nat) returns (b: nat, isNormal: bool)
    requires 0 < skip < |mask| && mask[|mask| - 1] != 0 && forall i :: 0 <= i < skip ==> mask[i] == 0xff
    ensures isNormal <==> exists len :: 0 < len && mask == Stored(skip, len)
    ensures isNormal ==> b >= 8 * skip && mask == Stored(skip, b - 8 * skip)
  {
    hide Normal, ByteAt, Within;
    var cp := skip;
    b, isNormal := 0, true;
    while cp < |mask| && mask[cp] == 0xff
      invariant skip <= cp <= |mask| && forall i :: 0 <= i < cp ==> mask[i] == 0xff
    {
      cp := cp + 1;
    }
    if cp != |mask| {
      b := LeadingOnes(mask[cp]);
      if mask[cp] != Normal(b) || cp != |mask| - 1 {
        isNormal := false;
      }
    }
    IsStored(mask, skip, cp, b, isNormal);
    b := b + 8 * cp;
  }

  lemma IsStored(mask: seq<bv8>, skip: nat, cp: nat, b: nat, isNormal: bool)
    requires 0 < skip <= cp <= |mask| && skip < |mask| && forall i :: 0 <= i < cp ==> mask[i] == 0xff
    requires mask[|mask| - 1] != 0
    requires if cp == |mask| then b == 0 && isNormal else
        && mask[cp] != 0xff && b < 8 && (forall j :: 0 <= j <= 8 && mask[cp] == Normal(j) ==> j == b)
        && (isNormal <==> mask[cp] == Normal(b) && cp == |mask| - 1)
    ensures isNormal <==> exists len :: 0 < len && mask == Stored(skip, len)
    ensures isNormal ==> mask == Stored(skip, 8 * (cp - skip) + b)
  {
    hide Normal;
    Ends();
    if isNormal {
      if cp == |mask| - 1 && b == 0 { assert false; }
      assert mask == Stored(skip, 8 * (cp - skip) + b);
    } else if exists len :: 0 < len && mask == Stored(skip, len) {
      var len :| 0 < len && mask == Stored(skip, len);
      NotStored(mask, skip, cp, b, len);
    }
  }

  lemma Ends()
    ensures Normal(0) == 0 && Normal(8) == 0xff
  {
  }

  lemma NotStored(mask: seq<bv8>, skip: nat, cp: nat, b: nat, len: nat)
    requires 0 < skip <= cp < |mask| && 0 < len && mask == Stored(skip, len) && mask[cp] != 0xff
    ensures cp == |mask| - 1 && mask[cp] == Normal(Within(len - 8 * (cp - skip)))
  {
    hide Normal;
    Ends();
    assert mask[cp] == ByteAt(skip, len, cp);
  }
}
