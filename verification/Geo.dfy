/** Geohash cells: interleaving, moves between cells, and score boxes (f1srv/geo.go). */
module Geo {
  import opened Words
  import opened Division

  /* Interleaving by masks and shifts. */

  predicate Width(g: nat)
  {
    g == 1 || g == 2 || g == 4 || g == 8 || g == 16 || g == 32
  }

  /** Bit p lies in a run of ones, when runs of g ones and g zeros alternate. */
  predicate In(g: nat, p: nat)
    requires Width(g)
  {
    if g == 1 then p % 2 < 1
    else if g == 2 then p % 4 < 2
    else if g == 4 then p % 8 < 4
    else if g == 8 then p % 16 < 8
    else if g == 16 then p % 32 < 16
    else p % 64 < 32
  }

  /** 0x5555... at 1, 0x3333... at 2, 0x0F0F... at 4, 0x00FF... at 8, 0x0000FFFF... at 16, the low half at 32. */
  function Mask(g: nat): (w: Bits)
    requires Width(g)
    ensures |w| == 64 && forall p :: 0 <= p < 64 ==> w[p] == In(g, p)
  {
    seq(64, p requires 0 <= p < 64 => In(g, p))
  }

  /** Where bit p of a word spread in groups of g comes from. */
  function Origin(g: nat, p: nat): (i: nat)
    requires Width(g) && p < 64
    ensures In(g, p) ==> i < 32
  {
    if g == 1 then p / 2
    else if g == 2 then p / 4 * 2 + p % 4
    else if g == 4 then p / 8 * 4 + p % 8
    else if g == 8 then p / 16 * 8 + p % 16
    else if g == 16 then p / 32 * 16 + p % 32
    else p
  }

  /** The 32 bits of x, in groups of g with as many zeros after each. */
  ghost predicate Grouped(w: Bits, x: Bits, g: nat)
    requires Width(g)
  {
    |w| == 64 && |x| == 32 && forall p :: 0 <= p < 64 ==> w[p] == (In(g, p) && x[Origin(g, p)])
  }

  function SpreadStep(w: Bits, g: nat): (w': Bits)
    requires |w| == 64 && Width(g)
    ensures |w'| == 64
  {
    And(Or(w, Shl(w, g)), Mask(g))
  }

  function SquashStep(w: Bits, s: nat, g: nat): (w': Bits)
    requires |w| == 64 && s <= 16 && Width(g)
    ensures |w'| == 64
  {
    And(Or(w, Shr(w, s)), Mask(g))
  }

  /** Membership and origin from quotient and remainder by twice the width. */
  lemma Placed(g: nat, q: nat, r: nat)
    requires Width(g) && r < 2 * g && q * (2 * g) + r < 64
    ensures var p := q * (2 * g) + r; In(g, p) == (r < g) && (r < g ==> Origin(g, p) == q * g + r)
  {
    DivUnique(q, r, 2 * g);
    assert g == 32 ==> q == 0;
  }

  lemma Split(p: nat, n: nat) returns (q: nat, r: nat)
    requires n >= 1
    ensures p == q * n + r && r < n
  {
    q, r := p / n, p % n;
  }

  lemma Products(q: nat, g: nat)
    ensures q * (4 * g) == (2 * q) * (2 * g) && (2 * q + 1) * (2 * g) == (2 * q) * (2 * g) + 2 * g
    ensures q * (2 * g) == (2 * q) * g && (2 * q + 1) * g == (2 * q) * g + g
    ensures q >= 1 ==> (q - 1) * (4 * g) == q * (4 * g) - 4 * g
    ensures q * (4 * g) >= 0 && (q == 0 ==> q * (4 * g) == 0)
  {
  }

  /** A bit kept by the finer mask was in place, or one group below. */
  lemma Places(g: nat, p: nat)
    requires Width(g) && Width(2 * g) && p < 64 && In(g, p)
    ensures In(2 * g, p) ==> Origin(2 * g, p) == Origin(g, p) && (p >= g ==> !In(2 * g, p - g))
    ensures !In(2 * g, p) ==> p >= g && In(2 * g, p - g) && Origin(2 * g, p - g) == Origin(g, p)
  {
    hide In, Origin;
    var q, r := Split(p, 4 * g);
    Products(q, g);
    assert 2 * (2 * g) == 4 * g;
    Placed(2 * g, q, r);
    if r < 2 * g {
      Placed(g, 2 * q, r);
      if p >= g { Placed(2 * g, q - 1, 3 * g + r); }
    } else {
      Placed(g, 2 * q + 1, r - 2 * g);
      Placed(2 * g, q, r - g);
    }
  }

  /** A bit kept by the coarser mask was in place, or one group above. */
  lemma PlacesBack(g: nat, p: nat)
    requires Width(g) && Width(2 * g) && p < 64 && In(2 * g, p)
    ensures In(g, p) ==> Origin(g, p) == Origin(2 * g, p) && (p + g < 64 ==> !In(g, p + g))
    ensures !In(g, p) ==> p + g < 64 && In(g, p + g) && Origin(g, p + g) == Origin(2 * g, p)
  {
    hide In, Origin;
    var q, r := Split(p, 4 * g);
    Products(q, g);
    assert 2 * (2 * g) == 4 * g;
    Placed(2 * g, q, r);
    Placed(g, 2 * q, r);
    if r < g {
      if p + g < 64 { Placed(g, 2 * q, r + g); }
    } else {
      Placed(g, 2 * q + 1, r - g);
    }
  }

  lemma SpreadKeeps(w: Bits, x: Bits, g: nat)
    requires Width(g) && Width(2 * g) && Grouped(w, x, 2 * g)
    ensures Grouped(SpreadStep(w, g), x, g)
  {
    hide Origin, In;
    forall p | 0 <= p < 64 ensures SpreadStep(w, g)[p] == (In(g, p) && x[Origin(g, p)]) {
      assert Shl(w, g)[p] == (p >= g && w[p - g]);
      if In(g, p) { Places(g, p); }
    }
  }

  lemma SquashKeeps(w: Bits, x: Bits, g: nat)
    requires Width(g) && Width(2 * g) && Grouped(w, x, g)
    ensures Grouped(SquashStep(w, g, 2 * g), x, 2 * g)
  {
    hide Origin, In;
    forall p | 0 <= p < 64 ensures SquashStep(w, g, 2 * g)[p] == (In(2 * g, p) && x[Origin(2 * g, p)]) {
      assert Shr(w, g)[p] == (p + g < 64 && w[p + g]);
      if In(2 * g, p) { PlacesBack(g, p); }
    }
  }

  /** Five steps space the 32 low bits of a word one apart. */
  function Spread(x: Bits): (w: Bits)
    requires |x| == 32
    ensures |w| == 64
  {
    SpreadStep(SpreadStep(SpreadStep(SpreadStep(SpreadStep(x + Off(32), 16), 8), 4), 2), 1)
  }

  lemma SpreadIs(x: Bits)
    requires |x| == 32
    ensures Grouped(Spread(x), x, 1)
  {
    var w := x + Off(32);
    assert Grouped(w, x, 32);
    hide Grouped, SpreadStep;
    SpreadKeeps(w, x, 16);
    var a := SpreadStep(w, 16);
    SpreadKeeps(a, x, 8);
    var b := SpreadStep(a, 8);
    SpreadKeeps(b, x, 4);
    var c := SpreadStep(b, 4);
    SpreadKeeps(c, x, 2);
    SpreadKeeps(SpreadStep(c, 2), x, 1);
  }

  lemma SpreadAt(x: Bits, p: nat)
    requires |x| == 32 && p < 64
    ensures Spread(x)[p] == (p % 2 == 0 && x[p / 2])
  {
    hide Spread;
    SpreadIs(x);
    assert Origin(1, p) == p / 2;
  }

  /** The even bits of a word, gathered into its low half. */
  function Squash(z: Bits): (w: Bits)
    requires |z| == 64
    ensures |w| == 64
  {
    SquashStep(SquashStep(SquashStep(SquashStep(SquashStep(SquashStep(z, 0, 1), 1, 2), 2, 4), 4, 8), 8, 16), 16, 32)
  }

  function Evens(z: Bits): (x: Bits)
    requires |z| == 64
    ensures |x| == 32 && forall i :: 0 <= i < 32 ==> x[i] == z[2 * i]
  {
    seq(32, i requires 0 <= i < 32 => z[2 * i])
  }

  lemma SquashIs(z: Bits)
    requires |z| == 64
    ensures Grouped(Squash(z), Evens(z), 32)
  {
    var x, w := Evens(z), SquashStep(z, 0, 1);
    assert Grouped(w, x, 1) by {
      assert Shr(z, 0) == z;
      forall p | 0 <= p < 64 ensures w[p] == (In(1, p) && x[Origin(1, p)]) { if In(1, p) { assert p == 2 * (p / 2); } }
    }
    hide Grouped, SquashStep;
    SquashKeeps(w, x, 1);
    var a := SquashStep(w, 1, 2);
    SquashKeeps(a, x, 2);
    var b := SquashStep(a, 2, 4);
    SquashKeeps(b, x, 4);
    var c := SquashStep(b, 4, 8);
    SquashKeeps(c, x, 8);
    SquashKeeps(SquashStep(c, 8, 16), x, 16);
  }

  /** interleave64: x in the even bits, y in the odd. */
  function Interleave(x: Bits, y: Bits): (z: Bits)
    requires |x| == 32 && |y| == 32
    ensures |z| == 64
  {
    Or(Spread(x), Shl(Spread(y), 1))
  }

  lemma InterleaveIs(x: Bits, y: Bits)
    requires |x| == 32 && |y| == 32
    ensures forall p :: 0 <= p < 64 ==> Interleave(x, y)[p] == if p % 2 == 0 then x[p / 2] else y[p / 2]
  {
    hide Spread;
    forall p | 0 <= p < 64 ensures Interleave(x, y)[p] == if p % 2 == 0 then x[p / 2] else y[p / 2] {
      SpreadAt(x, p);
      assert Shl(Spread(y), 1)[p] == (p >= 1 && Spread(y)[p - 1]);
      if p >= 1 { SpreadAt(y, p - 1); }
    }
  }

  /** deinterleave64: the even bits low, the odd bits high. */
  function Deinterleave(z: Bits): (w: Bits)
    requires |z| == 64
    ensures |w| == 64
  {
    Or(Squash(z), Shl(Squash(Shr(z, 1)), 32))
  }

  lemma DeinterleaveIs(z: Bits)
    requires |z| == 64
    ensures forall i :: 0 <= i < 32 ==> Deinterleave(z)[i] == z[2 * i] && Deinterleave(z)[32 + i] == z[2 * i + 1]
  {
    hide Squash;
    SquashIs(z);
    SquashIs(Shr(z, 1));
    var low, high := Squash(z), Squash(Shr(z, 1));
    forall i | 0 <= i < 32
      ensures Deinterleave(z)[i] == z[2 * i] && Deinterleave(z)[32 + i] == z[2 * i + 1]
    {
      assert Shl(high, 32)[i] == false && Shl(high, 32)[32 + i] == high[i];
      assert low[i] == Evens(z)[i] && low[32 + i] == false;
      assert high[i] == Evens(Shr(z, 1))[i] == Shr(z, 1)[2 * i] == z[2 * i + 1];
    }
  }

  /** Each undoes the other, on all pairs of 32-bit words and on all 64-bit words. */
  lemma InterleaveInverse(x: Bits, y: Bits)
    requires |x| == 32 && |y| == 32
    ensures Deinterleave(Interleave(x, y)) == x + y
  {
    hide Interleave, Deinterleave;
    InterleaveIs(x, y);
    DeinterleaveIs(Interleave(x, y));
    var w := Deinterleave(Interleave(x, y));
    forall i | 0 <= i < 64 ensures w[i] == (x + y)[i] {
      if i >= 32 { assert w[32 + (i - 32)] == Interleave(x, y)[2 * (i - 32) + 1]; }
    }
  }

  lemma DeinterleaveInverse(z: Bits)
    requires |z| == 64
    ensures Interleave(Deinterleave(z)[..32], Deinterleave(z)[32..]) == z
  {
    hide Interleave, Deinterleave;
    var w := Deinterleave(z);
    DeinterleaveIs(z);
    InterleaveIs(w[..32], w[32..]);
    forall p | 0 <= p < 64 ensures Interleave(w[..32], w[32..])[p] == z[p] {
      assert w[p / 2] == z[2 * (p / 2)] && w[32 + p / 2] == z[2 * (p / 2) + 1];
    }
  }
}
