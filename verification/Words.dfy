/** Machine words as their bits. */
module Words {
  import opened Powers

  /** Bits, lowest first. */
  type Bits = seq<bool>

  /** The low k bits of n. */
  function BitsOf(n: nat, k: nat): (w: Bits)
    ensures |w| == k
  {
    if k == 0 then [] else [n % 2 == 1] + BitsOf(n / 2, k - 1)
  }

  function Value(w: Bits): (n: nat)
  {
    if w == [] then 0 else (if w[0] then 1 else 0) + 2 * Value(w[1..])
  }

  lemma {:induction false} BitsOfValue(w: Bits)
    ensures BitsOf(Value(w), |w|) == w && Value(w) < Pow2(|w|)
  {
    if w != [] {
      BitsOfValue(w[1..]);
      assert w == [w[0]] + w[1..];
    }
  }

  lemma {:induction false} ValueOfBits(n: nat, k: nat)
    requires n < Pow2(k)
    ensures Value(BitsOf(n, k)) == n
  {
    if k > 0 {
      ValueOfBits(n / 2, k - 1);
      assert BitsOf(n, k)[1..] == BitsOf(n / 2, k - 1);
    }
  }

  function Off(k: nat): (w: Bits)
    ensures |w| == k && forall i :: 0 <= i < k ==> !w[i]
  {
    seq(k, _ => false)
  }

  function Xor(a: Bits, b: Bits): (w: Bits)
    requires |a| == |b|
    ensures |w| == |a| && forall i :: 0 <= i < |a| ==> w[i] == (a[i] != b[i])
  {
    seq(|a|, i requires 0 <= i < |a| => a[i] != b[i])
  }

  function Shr(w: Bits, k: nat): (w': Bits)
    requires k <= |w|
    ensures |w'| == |w|
  {
    w[k..] + Off(k)
  }

  function Shl(w: Bits, k: nat): (w': Bits)
    requires k <= |w|
    ensures |w'| == |w|
  {
    Off(k) + w[..|w| - k]
  }

  function Or(a: Bits, b: Bits): (w: Bits)
    requires |a| == |b|
    ensures |w| == |a| && forall i :: 0 <= i < |a| ==> w[i] == (a[i] || b[i])
  {
    seq(|a|, i requires 0 <= i < |a| => a[i] || b[i])
  }

  function And(a: Bits, b: Bits): (w: Bits)
    requires |a| == |b|
    ensures |w| == |a| && forall i :: 0 <= i < |a| ==> w[i] == (a[i] && b[i])
  {
    seq(|a|, i requires 0 <= i < |a| => a[i] && b[i])
  }
}
