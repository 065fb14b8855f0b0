// Sequence numbers modulo 2^32 (section 3.3 of RFC 793).

module TcpSeq {
  const M := 0x1_0000_0000
  const HALF := 0x8000_0000

  function Wrap(n: int): (r: nat)
    ensures r < M
  {
    n % M
  }

  // The difference of two sequence numbers taken as a signed 32-bit number.
  function SDiff(x: nat, y: nat): (d: int)
    ensures -HALF <= d < HALF
  {
    var d := (x - y) % M;
    if d >= HALF then d - M else d
  }

  predicate SeqLt(x: nat, y: nat) { SDiff(x, y) < 0 }
  predicate SeqLeq(x: nat, y: nat) { SDiff(x, y) <= 0 }
  predicate SeqGt(x: nat, y: nat) { SDiff(x, y) > 0 }

  // The comparison is right for numbers less than half the space apart.
  lemma DiffIs(base: int, a: int, b: int)
    requires -HALF <= a - b < HALF
    ensures SDiff(Wrap(base + a), Wrap(base + b)) == a - b
  {
    WrapDiff(base + a, base + b);
  }

  lemma WrapDiff(x: int, y: int)
    ensures (Wrap(x) - Wrap(y)) % M == (x - y) % M
  {
    var p, q := x / M, y / M;
    assert x == p * M + Wrap(x) && y == q * M + Wrap(y);
    assert x - y == (p - q) * M + (Wrap(x) - Wrap(y));
    ModShift(Wrap(x) - Wrap(y), p - q);
  }

  lemma {:induction false} ModShift(r: int, k: int)
    ensures (k * M + r) % M == r % M
    decreases if k < 0 then -k else k
  {
    if k > 0 {
      ModShift(r, k - 1);
      assert k * M + r == ((k - 1) * M + r) + M;
    } else if k < 0 {
      ModShift(r, k + 1);
      assert k * M + r == ((k + 1) * M + r) - M;
    }
  }

  lemma WrapAdd(x: int, n: int)
    ensures Wrap(Wrap(x) + n) == Wrap(x + n)
  {
    var p := x / M;
    assert x == p * M + Wrap(x);
    ModShift(Wrap(x) + n, p);
  }
}
