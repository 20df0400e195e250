/** Numbers as strings of bits, most significant first. */
module Bits {
  function Pow2(n: nat): (p: nat)
    ensures p > 0
  {
    if n == 0 then 1 else 2 * Pow2(n - 1)
  }

  function Bit(v: nat, k: nat): bool {
    if k == 0 then v % 2 == 1 else Bit(v / 2, k - 1)
  }

  /** The n low bits of v. */
  function BitsOf(v: nat, n: nat): (b: seq<bool>)
    ensures |b| == n
  {
    if n == 0 then [] else BitsOf(v / 2, n - 1) + [v % 2 == 1]
  }

  function Value(b: seq<bool>): nat {
    if b == [] then 0 else 2 * Value(b[..|b| - 1]) + if b[|b| - 1] then 1 else 0
  }

  lemma ValueThen(b: seq<bool>, bit: bool)
    ensures Value(b + [bit]) == 2 * Value(b) + if bit then 1 else 0
  {
    assert (b + [bit])[..|b|] == b;
  }

  lemma {:induction false} ValueBound(b: seq<bool>)
    ensures Value(b) < Pow2(|b|)
  {
    if b != [] {
      ValueBound(b[..|b| - 1]);
    }
  }

  lemma HalfMod(x: nat, m: nat)
    requires m > 0
    ensures x % (2 * m) == 2 * (x / 2 % m) + x % 2
  {
    var q, r := x / 2 / m, x / 2 % m;
    assert x / 2 == q * m + r;
    assert x == q * (2 * m) + (2 * r + x % 2);
    ModIs(x, 2 * m, q, 2 * r + x % 2);
  }

  lemma ModIs(x: nat, m: nat, q: nat, r: nat)
    requires m > 0 && x == q * m + r && r < m
    ensures x % m == r
  {
    Unique(m, q, r, x / m, x % m);
  }

  lemma Unique(m: nat, q: nat, r: nat, q': nat, r': nat)
    requires q * m + r == q' * m + r' && r < m && r' < m
    ensures r == r'
  {
    assert (q' - q) * m == r - r';
    if q < q' {
      AtLeast(m, q' - q);
    } else if q' < q {
      AtLeast(m, q - q');
    }
  }

  lemma AtLeast(m: nat, d: nat)
    requires d > 0
    ensures d * m >= m
  {
  }

  lemma {:induction false} ValueOfBits(v: nat, n: nat)
    ensures Value(BitsOf(v, n)) == v % Pow2(n)
  {
    if n > 0 {
      ValueOfBits(v / 2, n - 1);
      ValueThen(BitsOf(v / 2, n - 1), v % 2 == 1);
      HalfMod(v, Pow2(n - 1));
    }
  }

  lemma {:induction false} BitAt(v: nat, n: nat, i: nat)
    requires i < n
    ensures BitsOf(v, n)[i] == Bit(v, n - 1 - i)
  {
    if i < n - 1 {
      BitAt(v / 2, n - 1, i);
    }
  }

  /** Cutting off higher bits leaves the lower ones. */
  lemma {:induction false} LowBits(v: nat, j: nat, n: nat)
    requires n <= j
    ensures BitsOf(v % Pow2(j), n) == BitsOf(v, n)
  {
    if n > 0 {
      HalfMod(v, Pow2(j - 1));
      LowBits(v / 2, j - 1, n - 1);
    }
  }

  lemma {:induction false} TopAndRest(v: nat, n: nat)
    requires n > 0
    ensures BitsOf(v, n) == [Bit(v, n - 1)] + BitsOf(v, n - 1)
  {
    if n > 1 {
      TopAndRest(v / 2, n - 1);
    }
  }

  /** A shift to the left takes the top bit off; j is the width of the word. */
  lemma ShiftLeft(v: nat, j: nat, n: nat)
    requires 0 < n <= j
    ensures BitsOf(2 * v % Pow2(j), n) == BitsOf(v, n)[1..] + [false]
    ensures BitsOf(v, n)[0] == Bit(v, n - 1)
  {
    LowBits(2 * v, j, n);
    TopAndRest(v, n);
    assert 2 * v / 2 == v;
  }
}
