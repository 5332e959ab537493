/** The index arithmetic of the latency histogram (bench/hdr.go). */
module HdrShape {
  import opened Digits
  import opened Bytes
  import opened Powers
  import opened Decimal
  import opened Division

  /** The bits needed to write v. */
  function BitLen(v: nat): (n: nat)
  {
    if v == 0 then 0 else 1 + BitLen(v / 2)
  }

  /** bitLen. */
  method CountBits(value: nat) returns (n: nat)
    ensures n == BitLen(value)
  {
    n := 0;
    var v := value;
    while v > 0
      invariant n + BitLen(v) == BitLen(value)
    {
      n, v := n + 1, v / 2;
    }
  }

  lemma {:induction false} BitLenBelow(v: nat, k: nat)
    ensures v < Pow2(k) <==> BitLen(v) <= k
  {
    if v > 0 && k > 0 { BitLenBelow(v / 2, k - 1); }
  }

  lemma {:induction false} BitLenOr(x: nat, y: nat)
    ensures BitLen(Either(x, y)) == if BitLen(x) > BitLen(y) then BitLen(x) else BitLen(y)
  {
    if x > 0 && y > 0 {
      BitLenOr(x / 2, y / 2);
      OrPositive(x, y);
      assert Either(x, y) / 2 == Either(x / 2, y / 2);
    }
  }

  lemma {:induction false} OrPositive(x: nat, y: nat)
    requires x > 0 || y > 0
    ensures Either(x, y) > 0
  {
    if x > 0 && y > 0 && (x / 2 > 0 || y / 2 > 0) { OrPositive(x / 2, y / 2); }
  }

  /** What a histogram is built with: sub-buckets 2 to the m, units 2 to the u, buckets, significant figures. */
  datatype Shape = Shape(m: nat, u: nat, buckets: nat, sigFigs: nat, highest: nat)

  /** A shape as the constructor leaves it. */
  predicate Proper(s: Shape)
  {
    s.m >= 1 && s.buckets >= 1 && Half(s) >= Pow10(s.sigFigs) && s.highest <= Top(s) && s.highest <= INT64_MAX
  }

  function Half(s: Shape): (h: nat)
    ensures h >= 1
  {
    Pow2(if s.m == 0 then 0 else s.m - 1)
  }

  function Mask(s: Shape): (x: nat) { (Pow2(s.m) - 1) * Pow2(s.u) }

  /** The smallest value past the last bucket. */
  function Top(s: Shape): (v: nat)
  {
    Pow2(s.m + s.u + (if s.buckets == 0 then 0 else s.buckets - 1))
  }

  /** bucketIndex. */
  function Bucket(s: Shape, v: nat): (bi: int)
  {
    BitLen(Either(v, Mask(s))) - s.u - s.m
  }

  /** The width of a band in bucket bi. */
  function Step(s: Shape, bi: nat): (d: nat)
    ensures d >= 1
  {
    Pow2(bi + s.u)
  }

  lemma MaskBits(s: Shape)
    requires s.m >= 1
    ensures BitLen(Mask(s)) == s.m + s.u
  {
    assert Pow2(s.m) == 2 * Pow2(s.m - 1);
    hide Pow2, BitLen;
    Pow2Sum(s.m, s.u);
    Pow2Sum(s.m - 1, s.u);
    HalfMask(Pow2(s.m - 1), Pow2(s.u));
    BitLenBelow(Mask(s), s.m + s.u);
    BitLenBelow(Mask(s), s.m + s.u - 1);
  }

  lemma HalfMask(h: nat, d: nat)
    requires h >= 1 && d >= 1
    ensures h * d <= (2 * h - 1) * d < 2 * h * d
  {
    assert (2 * h - 1) * d == 2 * h * d - d;
    assert (2 * h - 1) * d - h * d == (h - 1) * d;
  }

  /** The bucket is the number of bits a value has past the first bucket's. */
  lemma BucketIs(s: Shape, v: nat)
    requires s.m >= 1
    ensures Bucket(s, v) == if BitLen(v) > s.m + s.u then BitLen(v) - s.m - s.u else 0
  {
    MaskBits(s);
    BitLenOr(v, Mask(s));
  }

  lemma HalfIs(s: Shape)
    requires s.m >= 1
    ensures Half(s) == Pow2(s.m - 1) && 2 * Half(s) == Pow2(s.m)
  {
  }

  lemma SubBelow(s: Shape, v: nat, bi: nat)
    requires s.m >= 1 && v < Pow2(s.m + (bi + s.u))
    ensures v / Step(s, bi) < 2 * Half(s)
  {
    hide Pow2, Half;
    HalfIs(s);
    Pow2Sum(s.m, bi + s.u);
    DivLess(v, Pow2(bi + s.u), Pow2(s.m));
  }

  lemma SubAbove(s: Shape, v: nat, bi: nat)
    requires s.m >= 1 && Pow2(s.m - 1 + (bi + s.u)) <= v
    ensures Half(s) <= v / Step(s, bi)
  {
    hide Pow2, Half;
    HalfIs(s);
    Pow2Sum(s.m - 1, bi + s.u);
    DivAtLeast(v, Pow2(bi + s.u), Pow2(s.m - 1));
  }

  /** A value's bucket and its place there. */
  lemma SubRange(s: Shape, v: nat)
    requires s.m >= 1
    ensures var bi := Bucket(s, v);
            && bi >= 0 && v / Step(s, bi) < 2 * Half(s) && (bi > 0 ==> Half(s) <= v / Step(s, bi))
  {
    hide Pow2, BitLen, Half, Bucket, Step;
    BucketIs(s, v);
    var bi := Bucket(s, v);
    BitLenBelow(v, s.m + (bi + s.u));
    SubBelow(s, v, bi);
    if bi > 0 {
      BitLenBelow(v, s.m - 1 + (bi + s.u));
      SubAbove(s, v, bi);
    }
  }

  /** The flat index of a value, whether or not the counts reach that far. */
  function Flat(s: Shape, v: nat): (i: nat)
    requires s.m >= 1
  {
    hide Pow2, BitLen, Half, Bucket, Step;
    SubRange(s, v);
    var bi: nat := Bucket(s, v);
    FlatAt(bi, Half(s), v, Step(s, bi));
    bi * Half(s) + v / Step(s, bi)
  }

  lemma FlatAt(bi: nat, h: nat, v: nat, d: nat)
    requires d >= 1
    ensures bi * h >= 0 && v / d >= 0
  {
  }

  /** indexFor: where a value is counted, if anywhere. */
  function IndexFor(s: Shape, v: int): (i: Option<nat>)
    requires s.m >= 1
  {
    if v < 0 then None
    else
      var bi := Bucket(s, v);
      if bi < 0 || bi >= s.buckets then None
      else
        var sbi := v / Step(s, bi);
        if sbi >= 2 * Half(s) then None
        else
          var idx := (bi + 1) * Half(s) + (sbi - Half(s));
          if idx < 0 || idx >= (s.buckets + 1) * Half(s) then None else Some(idx)
  }

  /** A value is counted exactly when it lies below the top of the last bucket. */
  lemma IndexForIs(s: Shape, v: nat)
    requires s.m >= 1 && s.buckets >= 1
    ensures IndexFor(s, v) == if v < Top(s) then Some(Flat(s, v)) else None
  {
    hide Pow2, BitLen, Half, Bucket, Step;
    BucketIs(s, v);
    SubRange(s, v);
    var bi := Bucket(s, v);
    BitLenBelow(v, s.m + s.u + (s.buckets - 1));
    var sbi := v / Step(s, bi);
    IndexSum(bi, sbi, Half(s));
    if bi < s.buckets {
      MulOrder(bi, s.buckets - 1, Half(s));
      IndexSum(s.buckets - 1, 0, Half(s));
      IndexSum(s.buckets, 0, Half(s));
    }
  }

  lemma IndexSum(bi: nat, sbi: nat, h: nat)
    ensures (bi + 1) * h + (sbi - h) == bi * h + sbi && (bi + 1) * h == bi * h + h && bi * h >= 0
  {
  }

  /** The bucket and place an index stands for. */
  function IndexBucket(s: Shape, i: nat): (bi: nat)
  {
    if Div(i, Half(s)) == 0 then 0 else Div(i, Half(s)) - 1
  }

  /** valueFromIndex: the lowest value counted at an index. */
  function ValueFromIndex(s: Shape, i: nat): (v: nat)
  {
    var sub := if i / Half(s) == 0 then i % Half(s) else i % Half(s) + Half(s);
    sub * Step(s, IndexBucket(s, i))
  }

  function Low(s: Shape, v: nat): (l: nat)
    requires s.m >= 1
  {
    SubRange(s, v);
    Floor(v, Step(s, Bucket(s, v)))
  }

  /** highEquivalentValue. */
  function High(s: Shape, v: nat): (h: nat)
    requires s.m >= 1
  {
    SubRange(s, v);
    Low(s, v) + Step(s, Bucket(s, v)) - 1
  }

  lemma IndexParts(s: Shape, bi: nat, sbi: nat)
    requires s.m >= 1 && sbi < 2 * Half(s) && (bi > 0 ==> Half(s) <= sbi)
    ensures IndexBucket(s, bi * Half(s) + sbi) == bi
    ensures ValueFromIndex(s, bi * Half(s) + sbi) == sbi * Step(s, bi)
  {
    hide Half, Step;
    var h := Half(s);
    if sbi < h {
      DivUnique(0, sbi, h);
    } else {
      DivUnique(bi + 1, sbi - h, h);
      IndexSum(bi, sbi, h);
    }
  }

  /** Reading an index back gives the bottom of the value's band and its bucket. */
  lemma IndexBack(s: Shape, v: nat)
    requires s.m >= 1
    ensures ValueFromIndex(s, Flat(s, v)) == Low(s, v) && IndexBucket(s, Flat(s, v)) == Bucket(s, v)
  {
    hide Half, Step, Bucket, IndexBucket, ValueFromIndex;
    SubRange(s, v);
    IndexParts(s, Bucket(s, v), v / Step(s, Bucket(s, v)));
  }

  /** A value lies in its band, and the band is no wider than one part in ten to the significant figures. */
  lemma BandHolds(s: Shape, v: nat)
    requires s.m >= 1 && Half(s) >= Pow10(s.sigFigs)
    ensures Low(s, v) <= v <= High(s, v)
    ensures var width := High(s, v) - Low(s, v) + 1; width == Pow2(s.u) || width * Pow10(s.sigFigs) <= v
  {
    hide Half, Bucket, Pow2, Pow10;
    SubRange(s, v);
    var bi := Bucket(s, v);
    var d := Step(s, bi);
    DivBounds(v, d);
    if bi > 0 {
      MulOrder(Pow10(s.sigFigs), v / d, d);
    }
  }

  lemma DivSame(q: nat, w: nat, d: nat)
    requires d >= 1 && q * d <= w < q * d + d
    ensures w / d == q
  {
    DivAtLeast(w, d, q);
    assert (q + 1) * d == q * d + d;
    DivLess(w, d, q + 1);
  }

  lemma BandBucket(s: Shape, v: nat, w: nat)
    requires s.m >= 1 && Low(s, v) <= w <= High(s, v)
    ensures Bucket(s, w) == Bucket(s, v)
  {
    hide Half, Bucket, Pow2, BitLen;
    SubRange(s, v);
    BucketIs(s, v);
    BucketIs(s, w);
    HalfIs(s);
    var bi := Bucket(s, v);
    var d, sbi := Step(s, bi), v / Step(s, bi);
    MulOrder(sbi + 1, 2 * Half(s), d);
    assert (sbi + 1) * d == sbi * d + d;
    Pow2Sum(s.m, bi + s.u);
    BitLenBelow(w, s.m + (bi + s.u));
    if bi > 0 {
      MulOrder(Half(s), sbi, d);
      Pow2Sum(s.m - 1, bi + s.u);
      BitLenBelow(w, s.m - 1 + (bi + s.u));
    }
  }

  /** Two values are counted together exactly when one lies in the other's band. */
  lemma SameIndex(s: Shape, v: nat, w: nat)
    requires s.m >= 1 && Half(s) >= Pow10(s.sigFigs)
    ensures Flat(s, w) == Flat(s, v) <==> Low(s, v) <= w <= High(s, v)
  {
    hide Half, Bucket, Step, ValueFromIndex, IndexBucket;
    SubRange(s, v);
    SubRange(s, w);
    if Low(s, v) <= w <= High(s, v) {
      BandBucket(s, v, w);
      DivSame(v / Step(s, Bucket(s, v)), w, Step(s, Bucket(s, v)));
    }
    if Flat(s, w) == Flat(s, v) {
      IndexBack(s, v);
      IndexBack(s, w);
      BandHolds(s, w);
    }
  }

  /** Larger values are never counted lower. */
  lemma FlatOrder(s: Shape, v: nat, w: nat)
    requires s.m >= 1 && v <= w
    ensures Flat(s, v) <= Flat(s, w)
  {
    hide Half, Bucket, Step, BitLen;
    SubRange(s, v);
    SubRange(s, w);
    BucketIs(s, v);
    BucketIs(s, w);
    BitLenOrder(v, w);
    var a, b := Bucket(s, v), Bucket(s, w);
    if a == b {
      DivBounds(v, Step(s, a));
      DivAtLeast(w, Step(s, a), v / Step(s, a));
    } else {
      MulOrder(a + 2, b + 1, Half(s));
      IndexSum(b, 0, Half(s));
      IndexSum(a, 0, Half(s));
      IndexSum(a + 1, 0, Half(s));
    }
  }

  lemma BitLenOrder(v: nat, w: nat)
    requires v <= w
    ensures BitLen(v) <= BitLen(w)
  {
    BitLenBelow(w, BitLen(w));
    BitLenBelow(v, BitLen(w));
  }
}
