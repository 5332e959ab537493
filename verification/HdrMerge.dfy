/** Which shapes of histogram merge into each other (bench/hdr.go, Merge). */
module HdrMerge {
  import opened Powers
  import opened Division
  import opened HdrShape
  import opened Hdr

  /** Every histogram of one shape merges rightly into one of another, as long as its samples are in range there. */
  ghost predicate Merges(s: Shape, t: Shape)
  {
    forall counts, samples ::
      Counts(t, counts, samples) && (forall x :: x in samples ==> x <= s.highest) ==> Counts(s, counts, samples)
  }

  function Lesser(a: nat, b: nat): (c: nat)
  {
    if a < b then a else b
  }

  /** The first value that two shapes index differently. */
  function FirstApart(s: Shape, t: Shape): (v: nat)
  {
    if s.u != t.u then Pow2(Lesser(s.u, t.u)) else Pow2(Lesser(s.m, t.m) + s.u) + Pow2(s.u)
  }

  /** Values in the first bucket. */
  lemma FlatLow(s: Shape, v: nat)
    requires s.m >= 1 && v < Pow2(s.m + s.u)
    ensures Flat(s, v) == v / Pow2(s.u)
  {
    hide Pow2, BitLen;
    BucketIs(s, v);
    BitLenBelow(v, s.m + s.u);
    assert Bucket(s, v) == 0;
  }

  /** The first band of the second bucket. */
  lemma FlatNext(s: Shape, v: nat)
    requires s.m >= 1 && Pow2(s.m + s.u) <= v < Pow2(s.m + s.u) + 2 * Pow2(s.u)
    ensures Flat(s, v) == Pow2(s.m)
  {
    assert Pow2(s.u + 1) == 2 * Pow2(s.u) && Pow2(s.m + s.u + 1) == 2 * Pow2(s.m + s.u);
    Pow2Order(s.u, s.m + s.u - 1);
    assert Pow2(s.m + s.u) == 2 * Pow2(s.m + s.u - 1);
    HalfIs(s);
    hide Pow2, BitLen, Half;
    BucketIs(s, v);
    BitLenBelow(v, s.m + s.u);
    BitLenBelow(v, s.m + s.u + 1);
    assert Bucket(s, v) == 1;
    Pow2Sum(s.m - 1, s.u + 1);
    var d, q := Pow2(s.u + 1), Pow2(s.m - 1);
    assert s.m + s.u == (s.m - 1) + (s.u + 1);
    assert q * d <= v < q * d + d;
    DivUnique(q, v - q * d, d);
    assert 1 * Half(s) == Half(s);
  }

  /** Below the first such value two shapes agree. */
  lemma AgreeBelow(s: Shape, t: Shape, v: nat)
    requires s.m >= 1 && t.m >= 1 && v < FirstApart(s, t)
    ensures Flat(s, v) == Flat(t, v)
  {
    if s.u != t.u {
      BelowUnit(s, v);
      BelowUnit(t, v);
    } else {
      BelowFirst(s, v, Lesser(s.m, t.m));
      BelowFirst(t, v, Lesser(s.m, t.m));
    }
  }

  lemma BelowUnit(s: Shape, v: nat)
    requires s.m >= 1 && exists k: nat :: k <= s.u && v < Pow2(k)
    ensures Flat(s, v) == 0
  {
    hide Pow2;
    var k: nat :| k <= s.u && v < Pow2(k);
    Pow2Order(k, s.u);
    Pow2Order(k, s.m + s.u);
    FlatLow(s, v);
    assert v / Pow2(s.u) == 0 by { DivUnique(0, v, Pow2(s.u)); }
  }

  lemma BelowFirst(s: Shape, v: nat, m: nat)
    requires 1 <= m <= s.m && v < Pow2(m + s.u) + Pow2(s.u)
    ensures Flat(s, v) == if v < Pow2(m + s.u) then v / Pow2(s.u) else Pow2(m)
  {
    if v < Pow2(m + s.u) {
      Pow2Order(m + s.u, s.m + s.u);
      FlatLow(s, v);
    } else if m < s.m {
      Within(m, s.m, s.u);
      FlatLow(s, v);
      Pow2Sum(m, s.u);
      DivUnique(Pow2(m), v - Pow2(m + s.u), Pow2(s.u));
    } else {
      FlatNext(s, v);
    }
  }

  lemma Within(m: nat, n: nat, u: nat)
    requires m < n
    ensures Pow2(m + u) + Pow2(u) <= Pow2(n + u)
    ensures m >= 1 ==> Pow2(m + u) + Pow2(u) < Pow2(n + u)
  {
    assert Pow2(m + u + 1) == 2 * Pow2(m + u);
    assert m >= 1 ==> Pow2(m + u) == 2 * Pow2(m - 1 + u);
    hide Pow2;
    Pow2Order(u, m + u);
    Pow2Order(m + u + 1, n + u);
    if m >= 1 {
      Pow2Order(u, m - 1 + u);
    }
  }

  /** At that value they do not. */
  lemma DisagreeAt(s: Shape, t: Shape)
    requires s.m >= 1 && t.m >= 1 && (s.u != t.u || s.m != t.m)
    ensures Flat(s, FirstApart(s, t)) != Flat(t, FirstApart(s, t))
  {
    if s.u < t.u {
      UnitOfOne(s, t);
    } else if t.u < s.u {
      UnitOfOne(t, s);
    } else if s.m < t.m {
      BandOfOne(s, t);
    } else {
      BandOfOne(t, s);
    }
  }

  lemma UnitOfOne(s: Shape, t: Shape)
    requires s.m >= 1 && t.m >= 1 && s.u < t.u
    ensures Flat(s, Pow2(s.u)) == 1 && Flat(t, Pow2(s.u)) == 0
  {
    var v := Pow2(s.u);
    assert Pow2(s.u + 1) == 2 * v;
    hide Pow2;
    Pow2Order(s.u + 1, s.m + s.u);
    Pow2Order(s.u + 1, t.u);
    FlatLow(s, v);
    DivUnique(1, 0, v);
    assert s.u + 1 <= t.u && v < Pow2(s.u + 1);
    BelowUnit(t, v);
  }

  lemma BandOfOne(s: Shape, t: Shape)
    requires 1 <= s.m < t.m && s.u == t.u
    ensures var v := Pow2(s.m + s.u) + Pow2(s.u); Flat(s, v) == Pow2(s.m) && Flat(t, v) == Pow2(s.m) + 1
  {
    var v := Pow2(s.m + s.u) + Pow2(s.u);
    hide Pow2, Flat;
    Within(s.m, t.m, s.u);
    FlatNext(s, v);
    FlatLow(t, v);
    Pow2Sum(s.m, s.u);
    OneMore(Pow2(s.m), Pow2(s.u));
  }

  lemma OneMore(q: nat, d: nat)
    requires d >= 1
    ensures (q * d + d) / d == q + 1
  {
    assert (q + 1) * d + 0 == q * d + d;
    DivUnique(q + 1, 0, d);
  }

  /** Equal figures and equally many counters leave no room for other buckets. */
  lemma SameBuckets(s: Shape, t: Shape)
    requires s.m == t.m && (s.buckets + 1) * Half(s) == (t.buckets + 1) * Half(t)
    ensures s.buckets == t.buckets
  {
    var h := Half(s);
    DivUnique(s.buckets + 1, 0, h);
    DivUnique(t.buckets + 1, 0, h);
  }

  /** A value below the first one told apart is below the top. */
  lemma ApartBelowTop(s: Shape, t: Shape)
    requires s.m >= 1 && t.m >= 1 && s.buckets >= 1 && t.buckets >= 1 && (s.u != t.u || s.m != t.m)
    requires (s.buckets + 1) * Half(s) == (t.buckets + 1) * Half(t)
    ensures FirstApart(s, t) <= Top(s)
  {
    if s.u != t.u {
      Pow2Order(Lesser(s.u, t.u), s.m + s.u + (s.buckets - 1));
    } else if t.m < s.m {
      Within(t.m, s.m, s.u);
      Pow2Order(s.m + s.u, s.m + s.u + (s.buckets - 1));
    } else {
      MoreBuckets(s, t);
      Within(s.m, s.m + 1, s.u);
      Pow2Order(s.m + 1 + s.u, s.m + s.u + (s.buckets - 1));
    }
  }

  lemma MoreBuckets(s: Shape, t: Shape)
    requires 1 <= s.m < t.m && s.buckets >= 1 && t.buckets >= 1 && (s.buckets + 1) * Half(s) == (t.buckets + 1) * Half(t)
    ensures s.buckets >= 2
  {
    HalfIs(s);
    HalfIs(t);
    assert Pow2(s.m) == 2 * Half(s);
    hide Pow2, Half;
    Pow2Order(s.m, t.m - 1);
    if s.buckets == 1 {
      assert (s.buckets + 1) * Half(s) == Pow2(s.m) <= Half(t);
      MulOrder(2, t.buckets + 1, Half(t));
    }
  }

  lemma Singled(t: Shape, v: nat) returns (counts: seq<int>)
    requires t.m >= 1 && t.buckets >= 1 && v < Top(t) && v <= t.highest
    ensures Counts(t, counts, [v]) && Flat(t, v) < |counts| && counts[Flat(t, v)] == 1
  {
    hide Top, Half, Flat, CountIf;
    SizeNonNegative(t);
    counts := seq((t.buckets + 1) * Half(t), _ => 0);
    assert Counts(t, counts, []) by {
      forall i | 0 <= i < |counts| ensures CountIf(AtIndex(t, i), []) == 0 {
        CountNone(AtIndex(t, i), []);
      }
    }
    RecordCounts(t, counts, [], v, 1);
    counts := counts[Flat(t, v) := counts[Flat(t, v)] + 1];
    assert [] + seq(1, _ => v) == [v];
  }

  /** Shapes with equally many counters merge into each other if and only if they index values alike, or the first
      value they tell apart is one that the other does not count or that is out of range here. */
  lemma MergeExact(s: Shape, t: Shape)
    requires Proper(s) && Proper(t) && (s.buckets + 1) * Half(s) == (t.buckets + 1) * Half(t)
    ensures Merges(s, t) <==>
            SameFigures(s, t) || !(FirstApart(s, t) <= s.highest && FirstApart(s, t) <= t.highest && FirstApart(s, t) < Top(t))
  {
    hide Top, Half, Flat, CountIf, FirstApart;
    var v := FirstApart(s, t);
    if SameFigures(s, t) {
      forall counts, samples | Counts(t, counts, samples) && (forall x :: x in samples ==> x <= s.highest)
        ensures Counts(s, counts, samples) {
        SameBands(s, t, counts, samples);
      }
    } else {
      if s.m == t.m { SameBuckets(s, t); }
      if v <= s.highest && v <= t.highest && v < Top(t) {
        var counts := Singled(t, v);
        DisagreeAt(s, t);
        CountOf(AtIndex(s, Flat(t, v)), v);
        assert !Counts(s, counts, [v]);
      } else {
        ApartBelowTop(s, t);
        forall counts, samples | Counts(t, counts, samples) && (forall x :: x in samples ==> x <= s.highest)
          ensures Counts(s, counts, samples) {
          CountsAlike(s, t, counts, samples);
        }
      }
    }
  }

  lemma CountsAlike(s: Shape, t: Shape, counts: seq<int>, samples: seq<int>)
    requires s.m >= 1 && t.m >= 1 && Counts(t, counts, samples) && (s.buckets + 1) * Half(s) == (t.buckets + 1) * Half(t)
    requires forall x :: x in samples ==> x <= s.highest && x < FirstApart(s, t)
    requires FirstApart(s, t) <= Top(s)
    ensures Counts(s, counts, samples)
  {
    hide Top, Half, Flat, CountIf, FirstApart;
    forall i | 0 <= i < |counts| ensures CountIf(AtIndex(s, i), samples) == CountIf(AtIndex(t, i), samples) {
      forall k | 0 <= k < |samples| ensures IndexOf(s, samples[k]) == IndexOf(t, samples[k]) {
        assert samples[k] in samples;
        AgreeBelow(s, t, samples[k]);
      }
      CountSame(AtIndex(s, i), AtIndex(t, i), samples);
    }
  }
}
