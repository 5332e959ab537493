/** Bitwise and and or of numbers, digit by digit. */
module Digits {
  /** The lowest bit of a number, and the rest of it. */
  function Low(n: nat): (b: nat)
    ensures b <= 1
  {
    n % 2
  }

  function Rest(n: nat): (m: nat)
    ensures m <= n && (n > 0 ==> m < n)
  {
    n / 2
  }

  lemma Parts(n: nat)
    ensures n == 2 * Rest(n) + Low(n)
  {
  }

  lemma PartsUnique(m: nat, b: nat)
    requires b <= 1
    ensures Rest(2 * m + b) == m && Low(2 * m + b) == b
  {
  }

  /** Bitwise and of a two's-complement integer with a non-negative mask: halving with a non-negative remainder is
      the arithmetic right shift, for negative integers too. */
  function Both(p: int, mask: nat): (z: nat)
    decreases mask
  {
    if mask == 0 then 0
    else (if p % 2 == 1 && mask % 2 == 1 then 1 else 0) + 2 * Both(p / 2, mask / 2)
  }

  /** Bitwise or. */
  function Either(x: nat, y: nat): (z: nat)
  {
    if x == 0 then y
    else if y == 0 then x
    else 2 * Either(x / 2, y / 2) + (if x % 2 == 1 || y % 2 == 1 then 1 else 0)
  }

  lemma {:induction false} BothZero(x: nat, y: nat)
    ensures Both(x, 0) == 0 && Both(0, y) == 0
    decreases y
  {
    if y > 0 { BothZero(x, y / 2); }
  }

  lemma EitherZero(x: nat)
    ensures Either(x, 0) == x && Either(0, x) == x
  {
  }

  /** Bit by bit. */
  lemma BothBit(m: nat, b: nat, n: nat, c: nat)
    requires b <= 1 && c <= 1
    ensures Both(2 * m + b, 2 * n + c) == 2 * Both(m, n) + (if b == 1 && c == 1 then 1 else 0)
  {
    assert (2 * m + b) / 2 == m && (2 * n + c) / 2 == n;
  }

  lemma EitherBit(m: nat, b: nat, n: nat, c: nat)
    requires b <= 1 && c <= 1
    ensures Either(2 * m + b, 2 * n + c) == 2 * Either(m, n) + (if b == 1 || c == 1 then 1 else 0)
  {
    assert (2 * m + b) / 2 == m && (2 * n + c) / 2 == n;
    EitherZero(m);
    EitherZero(n);
  }
}
