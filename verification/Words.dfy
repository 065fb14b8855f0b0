// What several of the models share: optional values, bytes and 16-bit end-around sums.

module Words {

  datatype Option<T> = None | Some(value: T)

  predicate Bytes(s: seq<nat>) { forall i :: 0 <= i < |s| ==> s[i] < 0x100 }

  // Two bytes in a row read as a 16-bit word of the machine.
  function Word(big: bool, b0: nat, b1: nat): nat { if big then 256 * b0 + b1 else b0 + 256 * b1 }

  // The sum of the words of s; a byte left over is filled up with a zero.
  function Sum(big: bool, s: seq<nat>): nat {
    if s == [] then 0 else if |s| == 1 then Word(big, s[0], 0) else Word(big, s[0], s[1]) + Sum(big, s[2..])
  }

  // 16-bit addition with end-around carry, applied to a whole sum.
  function EndAround(n: nat): nat { if n == 0 then 0 else (n - 1) % 65535 + 1 }

  // n modulo m, by taking m off or adding it.
  function Mod(n: int, m: nat): (r: nat)
    requires m > 0
    ensures r < m && (0 <= n < m ==> r == n) && (n < 0 <= n + m ==> r == n + m) && (m <= n < 2 * m ==> r == n - m)
    decreases if n < 0 then m - n else n
  {
    if n < 0 then Mod(n + m, m) else if n >= m then Mod(n - m, m) else n
  }

  // The upper half of a 32-bit number; the lower half is Mod(n, 0x10000).
  function High(n: nat): nat { if n < 0x10000 then 0 else 1 + High(n - 0x10000) }

  lemma {:induction false} Halves(n: nat)
    ensures n == 0x10000 * High(n) + Mod(n, 0x10000)
  {
    if n >= 0x10000 { Halves(n - 0x10000); }
  }
}
