/** Bytes and the fixed-width little- and big-endian integer layouts the formats below are made of. */
module Bytes {
  import Division

  type Byte = b: int | 0 <= b < 256
  type Bytes = seq<Byte>

  datatype Option<+T> = None | Some(value: T)

  const INT64_MIN: int := -0x8000_0000_0000_0000
  const INT64_MAX: int := 0x7fff_ffff_ffff_ffff

  /** 256 to the power k. */
  function Pow256(k: nat): (p: nat)
    ensures p >= 1
  {
    if k == 0 then 1 else 256 * Pow256(k - 1)
  }

  /** The low k bytes of n, least significant first. */
  function Le(n: nat, k: nat): (b: Bytes)
    ensures |b| == k
  {
    if k == 0 then [] else [n % 256] + Le(n / 256, k - 1)
  }

  function FromLe(b: Bytes): (n: nat)
  {
    if b == [] then 0 else b[0] + 256 * FromLe(b[1..])
  }

  /** The low k bytes of n, most significant first. */
  function Be(n: nat, k: nat): (b: Bytes)
    ensures |b| == k
  {
    if k == 0 then [] else Be(n / 256, k - 1) + [n % 256]
  }

  function FromBe(b: Bytes): (n: nat)
  {
    if b == [] then 0 else 256 * FromBe(b[..|b| - 1]) + b[|b| - 1]
  }

  lemma {:induction false} LeRoundTrip(n: nat, k: nat)
    requires n < Pow256(k)
    ensures FromLe(Le(n, k)) == n
  {
    if k > 0 {
      LeRoundTrip(n / 256, k - 1);
      assert Le(n, k)[1..] == Le(n / 256, k - 1);
    }
  }

  lemma {:induction false} BeRoundTrip(n: nat, k: nat)
    requires n < Pow256(k)
    ensures FromBe(Be(n, k)) == n
  {
    if k > 0 {
      BeRoundTrip(n / 256, k - 1);
      assert Be(n, k)[..k - 1] == Be(n / 256, k - 1);
    }
  }

  /** Byte i of the little-endian layout, and of the big-endian one, by division. */
  lemma {:induction false} LeAt(n: nat, k: nat, i: nat)
    requires i < k
    ensures Le(n, k)[i] == n / Pow256(i) % 256
  {
    if i > 0 {
      LeAt(n / 256, k - 1, i - 1);
      Division.DivByte(n, Pow256(i - 1));
    }
  }

  lemma {:induction false} BeAt(n: nat, k: nat, i: nat)
    requires i < k
    ensures Be(n, k)[i] == n / Pow256(k - 1 - i) % 256
  {
    if i < k - 1 {
      BeAt(n / 256, k - 1, i);
      Division.DivByte(n, Pow256(k - 2 - i));
    }
  }

  /** Every run of bytes is the layout of the number it reads as. */
  lemma {:induction false} LeOfFrom(b: Bytes)
    ensures Le(FromLe(b), |b|) == b
  {
    if b != [] {
      LeOfFrom(b[1..]);
      assert b == [b[0]] + b[1..];
    }
  }

  lemma {:induction false} BeOfFrom(b: Bytes)
    ensures Be(FromBe(b), |b|) == b
  {
    if b != [] {
      BeOfFrom(b[..|b| - 1]);
      assert b == b[..|b| - 1] + [b[|b| - 1]];
    }
  }

  lemma {:induction false} FromLeBound(b: Bytes)
    ensures FromLe(b) < Pow256(|b|)
  {
    if b != [] {
      FromLeBound(b[1..]);
    }
  }

  lemma {:induction false} FromBeBound(b: Bytes)
    ensures FromBe(b) < Pow256(|b|)
  {
    if b != [] {
      FromBeBound(b[..|b| - 1]);
    }
  }

  lemma Pow256Values()
    ensures Pow256(1) == 0x100 && Pow256(2) == 0x1_0000 && Pow256(3) == 0x100_0000
    ensures Pow256(4) == 0x1_0000_0000 && Pow256(8) == 0x1_0000_0000_0000_0000
  {
    assert Pow256(4) == 256 * Pow256(3) && Pow256(3) == 256 * Pow256(2) && Pow256(2) == 256 * Pow256(1);
    assert Pow256(6) == 256 * Pow256(5) && Pow256(5) == 256 * Pow256(4);
    assert Pow256(8) == 256 * Pow256(7) && Pow256(7) == 256 * Pow256(6);
  }

  /** Two's complement at width m (a power of two): the unsigned image of a signed value ... */
  function ToUnsigned(v: int, m: int): (u: nat)
    requires m > 0 && -m <= v < m
  {
    if v < 0 then v + m else v
  }

  /** ... and the signed value of an unsigned image. */
  function ToSigned(u: nat, m: int): (v: int)
    requires m > 0
  {
    var n: int := u;
    if 2 * n >= m then n - m else n
  }

  /** An int64 after a computation whose exact result is n. */
  function Wrap64(n: int): (v: int)
    ensures INT64_MIN <= v <= INT64_MAX
    ensures INT64_MIN <= n <= INT64_MAX ==> v == n
  {
    var u := n % 0x1_0000_0000_0000_0000;
    if u > INT64_MAX then u - 0x1_0000_0000_0000_0000 else u
  }

  lemma WrapTurns(n: int, q: int)
    ensures Wrap64(n + 0x1_0000_0000_0000_0000 * q) == Wrap64(n)
  {
    var w := 0x1_0000_0000_0000_0000;
    var k, r := n / w, n % w;
    assert n + w * q == w * (k + q) + r;
    assert (w * (k + q) + r) / w == k + q;
  }

  lemma WrapSplit(n: int) returns (q: int)
    ensures n == Wrap64(n) + 0x1_0000_0000_0000_0000 * q
  {
    q := n / 0x1_0000_0000_0000_0000 + if n % 0x1_0000_0000_0000_0000 > INT64_MAX then 1 else 0;
  }

  /** Wrapping on the way does not change where a sum, a tenfold or a negation ends up. */
  lemma WrapTwice(n: int, d: int)
    ensures Wrap64(Wrap64(n) + d) == Wrap64(n + d)
    ensures Wrap64(Wrap64(n) * 10 + d) == Wrap64(n * 10 + d)
    ensures Wrap64(-Wrap64(n)) == Wrap64(-n)
  {
    var q := WrapSplit(n);
    hide Wrap64;
    WrapTurns(Wrap64(n) + d, q);
    WrapTurns(Wrap64(n) * 10 + d, 10 * q);
    WrapTurns(-Wrap64(n), -q);
  }
}
