/** The latency histogram: recording, percentiles and merging (bench/hdr.go). */
module Hdr {
  import opened Bytes
  import opened Powers
  import opened Decimal
  import opened HdrShape
  import opened Division

  /** How many entries of a sequence satisfy a test. */
  ghost function CountIf(p: int -> bool, s: seq<int>): (n: nat)
    ensures n <= |s|
  {
    if s == [] then 0 else CountIf(p, s[..|s| - 1]) + (if p(s[|s| - 1]) then 1 else 0)
  }

  lemma {:induction false} CountSame(p: int -> bool, q: int -> bool, s: seq<int>)
    requires forall i :: 0 <= i < |s| ==> p(s[i]) == q(s[i])
    ensures CountIf(p, s) == CountIf(q, s)
  {
    if s != [] {
      CountSame(p, q, s[..|s| - 1]);
    }
  }

  lemma {:induction false} CountSplit(p: int -> bool, q: int -> bool, r: int -> bool, s: seq<int>)
    requires forall i :: 0 <= i < |s| ==> (r(s[i]) <==> p(s[i]) || q(s[i])) && !(p(s[i]) && q(s[i]))
    ensures CountIf(r, s) == CountIf(p, s) + CountIf(q, s)
  {
    if s != [] {
      CountSplit(p, q, r, s[..|s| - 1]);
    }
  }

  lemma {:induction false} CountConcat(p: int -> bool, s: seq<int>, t: seq<int>)
    ensures CountIf(p, s + t) == CountIf(p, s) + CountIf(p, t)
  {
    if t == [] {
      assert s + t == s;
    } else {
      CountConcat(p, s, t[..|t| - 1]);
      assert (s + t)[..|s + t| - 1] == s + t[..|t| - 1];
    }
  }

  lemma {:induction false} CountAll(p: int -> bool, s: seq<int>)
    requires forall i :: 0 <= i < |s| ==> p(s[i])
    ensures CountIf(p, s) == |s|
  {
    if s != [] {
      CountAll(p, s[..|s| - 1]);
    }
  }

  lemma {:induction false} CountNone(p: int -> bool, s: seq<int>)
    requires forall i :: 0 <= i < |s| ==> !p(s[i])
    ensures CountIf(p, s) == 0
  {
    if s != [] {
      CountNone(p, s[..|s| - 1]);
    }
  }

  /** The index of a sample. */
  function IndexOf(s: Shape, x: int): (i: int)
  {
    if x < 0 || s.m < 1 then -1 else Flat(s, x)
  }

  ghost function AtIndex(s: Shape, i: int): int -> bool { x => IndexOf(s, x) == i }

  ghost function UpTo(s: Shape, i: int): int -> bool { x => IndexOf(s, x) <= i }

  ghost function AtMost(v: int): int -> bool { x => x <= v }

  ghost function Under(v: int): int -> bool { x => x < v }

  /** What is counted for a sample: clamped into the tracked range. */
  function Clamp(s: Shape, value: int): (v: nat)
  {
    if value > s.highest then s.highest else if value < 0 then 0 else value
  }

  /** Every sample is counted, unless the tracked range ends exactly at the top of the last bucket and the
      sample reaches it. */
  lemma CountedWhen(s: Shape, value: int)
    requires Proper(s)
    ensures IndexFor(s, Clamp(s, value)).Some? <==> !(value >= s.highest && s.highest == Top(s))
  {
    hide Top, Half, IndexFor, Pow10;
    TopPositive(s);
    IndexForIs(s, Clamp(s, value));
  }

  lemma TopPositive(s: Shape)
    ensures Top(s) >= 1
  {
  }

  /** The samples a histogram of one shape has counted, and its counters. */
  ghost predicate Counts(s: Shape, counts: seq<int>, samples: seq<int>)
  {
    && |counts| == (s.buckets + 1) * Half(s)
    && (forall i :: 0 <= i < |counts| ==> counts[i] == CountIf(AtIndex(s, i), samples))
    && (forall x :: x in samples ==> 0 <= x < Top(s) && x <= s.highest)
  }

  /** The extremes recorded so far. */
  ghost predicate Extremes(samples: seq<int>, minValue: int, maxValue: int)
  {
    && (samples == [] ==> minValue == INT64_MAX && maxValue == 0)
    && (samples != [] ==> minValue in samples && maxValue in samples)
    && (forall x :: x in samples ==> minValue <= x <= maxValue)
  }

  lemma RecordCounts(s: Shape, counts: seq<int>, samples: seq<int>, v: nat, n: nat)
    requires s.m >= 1 && s.buckets >= 1 && Counts(s, counts, samples) && v < Top(s) && v <= s.highest
    ensures Flat(s, v) < |counts|
    ensures Counts(s, counts[Flat(s, v) := counts[Flat(s, v)] + n], samples + seq(n, _ => v))
  {
    hide Top, Half, Flat, CountIf;
    FlatInside(s, v);
    var more := seq(n, _ => v);
    forall i | 0 <= i < |counts|
      ensures CountIf(AtIndex(s, i), samples + more) == counts[i] + (if i == Flat(s, v) then n else 0)
    {
      CountConcat(AtIndex(s, i), samples, more);
      if i == Flat(s, v) {
        CountAll(AtIndex(s, i), more);
      } else {
        CountNone(AtIndex(s, i), more);
      }
    }
  }

  lemma FlatInside(s: Shape, v: nat)
    requires s.m >= 1 && s.buckets >= 1 && v < Top(s)
    ensures Flat(s, v) < (s.buckets + 1) * Half(s)
  {
    hide Top, Half, Flat;
    IndexForIs(s, v);
    IndexForInside(s, v);
  }

  lemma IndexForInside(s: Shape, v: int)
    requires s.m >= 1
    ensures IndexFor(s, v).Some? ==> IndexFor(s, v).value < (s.buckets + 1) * Half(s)
  {
    hide Half, Bucket, Step;
  }

  /** Every index is some value's. */
  lemma IndexReached(s: Shape, i: nat)
    requires s.m >= 1
    ensures Flat(s, ValueFromIndex(s, i)) == i
  {
    hide Pow2, BitLen, Bucket;
    var h := Half(s);
    HalfIs(s);
    var q, r := i / h, i % h;
    assert i == q * h + r;
    var bi := IndexBucket(s, i);
    var sub := if q == 0 then r else r + h;
    var d := Step(s, bi);
    var v := sub * d;
    DivUnique(sub, 0, d);
    BucketIs(s, v);
    MulOrder(sub + 1, 2 * h, d);
    assert (sub + 1) * d == sub * d + d;
    Pow2Sum(s.m, bi + s.u);
    BitLenBelow(v, s.m + (bi + s.u));
    if bi > 0 {
      MulOrder(h, sub, d);
      Pow2Sum(s.m - 1, bi + s.u);
      BitLenBelow(v, s.m - 1 + (bi + s.u));
    }
    assert Bucket(s, v) == bi;
  }

  /** The samples counted up to an index are those up to the top of its band; those before it, those below
      the band. */
  lemma BandCut(s: Shape, i: nat, x: nat)
    requires s.m >= 1 && Half(s) >= Pow10(s.sigFigs)
    ensures var lo := ValueFromIndex(s, i);
            (Flat(s, x) <= i <==> x <= High(s, lo)) && (Flat(s, x) < i <==> x < lo)
  {
    hide Half, Flat, ValueFromIndex, High, Low;
    var lo := ValueFromIndex(s, i);
    IndexReached(s, i);
    IndexBack(s, lo);
    BandHolds(s, lo);
    SameIndex(s, lo, x);
    if x <= lo {
      FlatOrder(s, x, lo);
    } else {
      FlatOrder(s, lo, x);
    }
  }

  /** The running count up to an index. */
  lemma UpToNext(s: Shape, i: int, samples: seq<int>)
    ensures CountIf(UpTo(s, i), samples) == CountIf(UpTo(s, i - 1), samples) + CountIf(AtIndex(s, i), samples)
  {
    hide IndexOf;
    CountSplit(UpTo(s, i - 1), AtIndex(s, i), UpTo(s, i), samples);
  }

  lemma UpToNone(s: Shape, samples: seq<int>)
    requires s.m >= 1 && forall x :: x in samples ==> 0 <= x
    ensures CountIf(UpTo(s, -1), samples) == 0
  {
    hide Flat;
    forall i | 0 <= i < |samples| ensures IndexOf(s, samples[i]) >= 0 { assert samples[i] in samples; }
    CountNone(UpTo(s, -1), samples);
  }

  lemma UpToAll(s: Shape, samples: seq<int>, n: nat)
    requires s.m >= 1 && s.buckets >= 1 && n == (s.buckets + 1) * Half(s) && forall x :: x in samples ==> 0 <= x < Top(s)
    ensures CountIf(UpTo(s, n - 1), samples) == |samples|
  {
    hide Flat, Top, Half;
    forall x | x in samples ensures IndexOf(s, x) <= n - 1 { FlatInside(s, x); }
    CountAll(UpTo(s, n - 1), samples);
  }

  /** Counts up to an index are counts up to a value. */
  lemma UpToIsAtMost(s: Shape, i: nat, samples: seq<int>)
    requires s.m >= 1 && Half(s) >= Pow10(s.sigFigs) && forall x :: x in samples ==> 0 <= x
    ensures var lo := ValueFromIndex(s, i);
            && CountIf(UpTo(s, i), samples) == CountIf(AtMost(High(s, lo)), samples)
            && CountIf(UpTo(s, i - 1), samples) == CountIf(Under(lo), samples)
  {
    hide Half, Flat, ValueFromIndex, High;
    var lo := ValueFromIndex(s, i);
    forall x | x in samples
      ensures (IndexOf(s, x) <= i <==> x <= High(s, lo)) && (IndexOf(s, x) <= i - 1 <==> x < lo)
    {
      BandCut(s, i, x);
    }
    CountSame(UpTo(s, i), AtMost(High(s, lo)), samples);
    CountSame(UpTo(s, i - 1), Under(lo), samples);
  }

  /** The shape NewHistogram settles on: enough sub-buckets for the figures, units no coarser than the
      lowest value, and as few buckets as reach the highest. */
  ghost predicate Built(s: Shape, lowest: nat, highest: nat, sigFigs: nat)
  {
    && s.sigFigs == sigFigs && s.highest == highest && s.m >= 1 && s.buckets >= 1
    && 2 * Pow10(sigFigs) <= Pow2(s.m) && (s.m == 1 || Pow2(s.m - 1) < 2 * Pow10(sigFigs))
    && Pow2(s.u) <= lowest < Pow2(s.u + 1)
    && highest <= Top(s) && (s.buckets == 1 || Pow2(s.m + s.u + s.buckets - 2) < highest)
  }

  lemma BuiltProper(s: Shape, lowest: nat, highest: nat, sigFigs: nat)
    requires Built(s, lowest, highest, sigFigs) && highest <= INT64_MAX
    ensures Proper(s)
  {
    hide Pow10, Top;
    HalfIs(s);
  }

  /** A range that ends exactly at the top of the last bucket: from 1 to 2048 with three figures, every
      sample of 2048 or more is dropped, stalls included. */
  lemma StallsDropped(s: Shape, value: int)
    requires Built(s, 1, 2048, 3) && value >= 2048
    ensures Top(s) == 2048 && IndexFor(s, Clamp(s, value)) == None
  {
    hide IndexFor, BitLen;
    assert Pow10(3) == 1000 by { assert Pow10(2) == 100; }
    assert Pow2(8) == 256 by { assert Pow2(4) == 16; assert Pow2(6) == 4 * Pow2(4); }
    assert Pow2(10) == 4 * Pow2(8) && Pow2(11) == 2 * Pow2(10);
    if s.m < 11 { Pow2Order(s.m, 10); }
    if s.m > 11 { Pow2Order(11, s.m - 1); }
    assert s.u == 0;
    if s.buckets > 1 { Pow2Order(11, s.m + s.u + s.buckets - 2); }
    BuiltProper(s, 1, 2048, 3);
    CountedWhen(s, value);
  }

  /** NewHistogram's shape, its arguments clamped; the first bucket has to fit an int64. */
  method NewShape(lowest0: int, highest0: int, sigFigs0: int) returns (s: Shape)
    requires lowest0 <= 0x1000_0000_0000 && highest0 <= INT64_MAX
    ensures Proper(s)
    ensures var lowest: nat := if lowest0 < 1 then 1 else lowest0;
            Built(s, lowest, if highest0 < 2 * lowest then 2 * lowest else highest0,
                  if sigFigs0 < 1 then 1 else if sigFigs0 > 5 then 5 else sigFigs0)
  {
    hide Pow10, Pow2;
    var lowest: nat := if lowest0 < 1 then 1 else lowest0;
    var highest: nat := if highest0 < 2 * lowest then 2 * lowest else highest0;
    var sigFigs: nat := if sigFigs0 < 1 then 1 else if sigFigs0 > 5 then 5 else sigFigs0;
    var m := SubBucketMagnitude(sigFigs);
    var u := UnitMagnitude(lowest);
    var buckets := BucketCount(m + u, highest);
    s := Shape(m, u, buckets, sigFigs, highest);
    BuiltProper(s, lowest, highest, sigFigs);
  }

  method SubBucketMagnitude(sigFigs: nat) returns (m: nat)
    requires sigFigs <= 5
    ensures 1 <= m && 2 * Pow10(sigFigs) <= Pow2(m) && (m == 1 || Pow2(m - 1) < 2 * Pow10(sigFigs))
  {
    hide Pow10;
    var largest := 2 * Pow10(sigFigs);
    m := 1;
    var p := 2;
    assert Pow2(1) == 2 * Pow2(0);
    while p < largest
      invariant 1 <= m && p == Pow2(m) && (m == 1 || Pow2(m - 1) < largest)
      decreases largest - p
    {
      m, p := m + 1, 2 * p;
    }
  }

  method UnitMagnitude(lowest: nat) returns (u: nat)
    requires lowest >= 1
    ensures Pow2(u) <= lowest < Pow2(u + 1)
  {
    u := 0;
    var p := 1;
    while 2 * p <= lowest
      invariant p == Pow2(u) <= lowest
      decreases lowest - p
    {
      u, p := u + 1, 2 * p;
    }
  }

  /** Double the first bucket's reach until it covers highest. */
  method BucketCount(bits: nat, highest: nat) returns (buckets: nat)
    requires highest <= INT64_MAX
    ensures buckets >= 1 && highest <= Pow2(bits + buckets - 1) && (buckets == 1 || Pow2(bits + buckets - 2) < highest)
  {
    var smallestUntrackable: nat := Pow2(bits);
    buckets := 1;
    while smallestUntrackable < highest
      invariant buckets >= 1 && smallestUntrackable == Pow2(bits + buckets - 1)
      invariant buckets == 1 || Pow2(bits + buckets - 2) < highest
      decreases highest - smallestUntrackable
    {
      if smallestUntrackable > INT64_MAX / 2 {
        assert Pow2(bits + buckets) == 2 * smallestUntrackable;
        buckets := buckets + 1;
        break;
      }
      smallestUntrackable := 2 * smallestUntrackable;
      buckets := buckets + 1;
    }
  }

  /** The counter loop of Merge; the two may be one. */
  method AddCounts(mine: array<int>, theirs: array<int>)
    requires mine.Length == theirs.Length
    modifies mine
    ensures forall k :: 0 <= k < mine.Length ==> mine[k] == old(mine[k]) + old(theirs[k])
  {
    var i := 0;
    while i < mine.Length
      invariant 0 <= i <= mine.Length
      invariant forall k :: 0 <= k < mine.Length ==> mine[k] == old(mine[k]) + if k < i then old(theirs[k]) else 0
      invariant forall k :: i <= k < mine.Length ==> theirs[k] == old(theirs[k])
    {
      mine[i] := mine[i] + theirs[i];
      i := i + 1;
    }
  }

  class Histogram {
    const shape: Shape
    var counts: array<int>
    var totalCount: int
    var minValue: int
    var maxValue: int
    ghost var samples: seq<int>   // what has been counted, in order

    ghost predicate Valid()
      reads this, counts
    {
      && Proper(shape) && Counts(shape, counts[..], samples)
      && totalCount == |samples| && Extremes(samples, minValue, maxValue)
    }

    /** NewHistogram on a shape. */
    constructor (shape: Shape)
      requires Proper(shape)
      ensures Valid() && fresh(counts) && this.shape == shape && samples == []
    {
      this.shape := shape;
      var n := (shape.buckets + 1) * Half(shape);
      SizeNonNegative(shape);
      counts := new int[n](_ => 0);
      totalCount, minValue, maxValue, samples := 0, INT64_MAX, 0, [];
    }

    /** RecordValues: count copies of one sample, clamped; dropped only at the very top. */
    method RecordValues(value: int, count: int)
      requires Valid()
      modifies this, counts
      ensures Valid() && counts == old(counts)
      ensures samples == if count <= 0 || (value >= shape.highest && shape.highest == Top(shape)) then old(samples)
                         else old(samples) + seq(count, _ => Clamp(shape, value))
    {
      hide Top, Half, IndexFor, Flat, Counts;
      if count <= 0 {
        return;
      }
      var v := Clamp(shape, value);
      CountedWhen(shape, value);
      IndexForIs(shape, v);
      var idx := IndexFor(shape, v);
      if idx.None? {
        return;
      }
      RecordCounts(shape, counts[..], samples, v, count);
      CountsSize(shape, counts[..], samples);
      ghost var was := counts[..];
      counts[idx.value] := counts[idx.value] + count;
      assert counts[..] == was[idx.value := was[idx.value] + count];
      totalCount := totalCount + count;
      ExtremesMore(samples, minValue, maxValue, v, count);
      maxValue := if v > maxValue then v else maxValue;
      minValue := if v < minValue then v else minValue;
      samples := samples + seq(count, _ => v);
    }

    /** ValueAtPercentile at an integer rank: the top of the band that holds the sample of that rank. */
    method ValueAtRank(target: int) returns (v: int, ghost lo: nat)
      requires Valid() && target >= 1
      ensures samples == [] ==> v == 0
      ensures samples != [] && target <= |samples| ==>
                && v == High(shape, lo) && Low(shape, lo) == lo
                && CountIf(Under(lo), samples) < target <= CountIf(AtMost(v), samples)
      ensures samples != [] && target > |samples| ==> v == maxValue
    {
      hide Half, Flat, Top, CountIf, ValueFromIndex, High, Low, Counts, Pow10;
      lo := 0;
      if totalCount == 0 {
        return 0, 0;
      }
      CountsSize(shape, counts[..], samples);
      var seen, i := 0, 0;
      UpToNone(shape, samples);
      while i < counts.Length
        invariant 0 <= i <= counts.Length && seen == CountIf(UpTo(shape, i - 1), samples) < target
      {
        CountAt(shape, counts[..], samples, i);
        UpToNext(shape, i, samples);
        seen := seen + counts[i];
        if seen >= target {
          UpToIsAtMost(shape, i, samples);
          IndexReached(shape, i);
          IndexBack(shape, ValueFromIndex(shape, i));
          return High(shape, ValueFromIndex(shape, i)), ValueFromIndex(shape, i);
        }
        i := i + 1;
      }
      UpToAll(shape, samples, counts.Length);
      v := maxValue;
    }

    /** Merge: as if the other's samples had been recorded here too, if and only if the other's counters are
        theirs in this shape as well.  Only the number of counters is compared, and counters are added whatever
        the shapes; where the figures are the same, it all hangs on the other's maximum. */
    method Merge(other: Histogram)
      requires Valid() && other.Valid() && (other == this || other.counts != counts)
      modifies this, counts
      ensures counts == old(counts)
      ensures other.counts.Length != counts.Length ==> Valid() && samples == old(samples)
      ensures other.counts.Length == counts.Length ==>
                && samples == old(samples) + old(other.samples)
                && (Valid() <==> Counts(shape, old(other.counts[..]), old(other.samples)))
                && forall k :: 0 <= k < counts.Length ==> counts[k] == old(counts[k]) + old(other.counts[k])
      ensures other.counts.Length == counts.Length && SameFigures(shape, other.shape) ==>
                (Valid() <==> old(other.maxValue) <= shape.highest)
    {
      hide CountIf, Top, Half, Counts;
      CountsSize(shape, counts[..], samples);
      CountsSize(other.shape, other.counts[..], other.samples);
      if other.counts.Length != counts.Length {
        return;
      }
      ghost var mine, theirs, b, top := counts[..], other.counts[..], other.samples, other.maxValue;
      if SameFigures(shape, other.shape) {
        SameBands(shape, other.shape, theirs, b);
        WithinTop(shape, theirs, b, other.minValue, top);
      }
      AddCounts(counts, other.counts);
      MergeCounts(shape, mine, theirs, counts[..], samples, b);
      MergeExtremes(samples, minValue, maxValue, b, other.minValue, top);
      var n, lo := other.totalCount, other.minValue;
      totalCount := totalCount + n;
      maxValue := if other.maxValue > maxValue then other.maxValue else maxValue;
      minValue := if n > 0 && lo < minValue then lo else minValue;
      samples := samples + b;
    }
  }

  /** Shapes that index values alike. */
  predicate SameFigures(s: Shape, t: Shape)
  {
    s.m == t.m && s.u == t.u && s.buckets == t.buckets
  }

  /** The recorded maximum tells whether every sample is in range. */
  lemma WithinTop(s: Shape, counts: seq<int>, samples: seq<int>, minValue: int, maxValue: int)
    requires Extremes(samples, minValue, maxValue) && s.highest >= 0
    ensures maxValue <= s.highest <==> forall x :: x in samples ==> x <= s.highest
    ensures Counts(s, counts, samples) ==> maxValue <= s.highest
  {
    hide CountIf, Top, Half;
  }

  lemma SizeNonNegative(s: Shape)
    ensures (s.buckets + 1) * Half(s) >= 0
  {
  }

  lemma CountsSize(s: Shape, counts: seq<int>, samples: seq<int>)
    requires Counts(s, counts, samples)
    ensures |counts| == (s.buckets + 1) * Half(s) && forall x :: x in samples ==> 0 <= x < Top(s) && x <= s.highest
  {
  }

  lemma CountAt(s: Shape, counts: seq<int>, samples: seq<int>, i: nat)
    requires Counts(s, counts, samples) && i < |counts|
    ensures counts[i] == CountIf(AtIndex(s, i), samples)
  {
  }

  lemma ExtremesMore(samples: seq<int>, minValue: int, maxValue: int, v: nat, n: nat)
    requires Extremes(samples, minValue, maxValue) && n > 0 && v <= INT64_MAX
    ensures Extremes(samples + seq(n, _ => v), if v < minValue then v else minValue, if v > maxValue then v else maxValue)
  {
    var more := seq(n, _ => v);
    assert more[0] == v && more[0] in samples + more;
    assert forall x :: x in samples + more <==> x in samples || x == v;
  }

  lemma MergeExtremes(a: seq<int>, aMin: int, aMax: int, b: seq<int>, bMin: int, bMax: int)
    requires Extremes(a, aMin, aMax) && Extremes(b, bMin, bMax) && forall x :: x in a || x in b ==> 0 <= x <= INT64_MAX
    ensures Extremes(a + b, if |b| > 0 && bMin < aMin then bMin else aMin, if bMax > aMax then bMax else aMax)
  {
    assert forall x :: x in a + b <==> x in a || x in b;
    if b != [] { assert b[0] in b; }
  }

  lemma MergeCounts(s: Shape, mine: seq<int>, theirs: seq<int>, sum: seq<int>, a: seq<int>, b: seq<int>)
    requires Counts(s, mine, a) && |sum| == |mine| == |theirs|
    requires forall k :: 0 <= k < |sum| ==> sum[k] == mine[k] + theirs[k]
    ensures Counts(s, sum, a + b) <==> Counts(s, theirs, b)
  {
    hide CountIf, Top, Half, AtIndex;
    forall i | 0 <= i < |sum| ensures CountIf(AtIndex(s, i), a + b) == mine[i] + CountIf(AtIndex(s, i), b) {
      CountConcat(AtIndex(s, i), a, b);
    }
    assert forall x :: x in a + b <==> x in a || x in b;
  }

  /** Shapes that differ in the figures or the range alone count alike. */
  lemma SameBands(s: Shape, t: Shape, counts: seq<int>, samples: seq<int>)
    requires SameFigures(s, t)
    ensures Counts(t, counts, samples) && (forall x :: x in samples ==> x <= s.highest) ==> Counts(s, counts, samples)
  {
    if Counts(t, counts, samples) {
      forall i | 0 <= i < |counts| ensures CountIf(AtIndex(s, i), samples) == CountIf(AtIndex(t, i), samples) {
        forall k | 0 <= k < |samples| ensures IndexOf(s, samples[k]) == IndexOf(t, samples[k]) { SameFlat(s, t, samples[k]); }
        CountSame(AtIndex(s, i), AtIndex(t, i), samples);
      }
    }
  }

  lemma SameFlat(s: Shape, t: Shape, x: int)
    requires s.m == t.m && s.u == t.u
    ensures IndexOf(s, x) == IndexOf(t, x)
  {
  }

  /** Shapes in units of one and of two with equally many counters: a sample of 2 merged across them lands in the
      band of 1. */
  lemma UnitsDiffer(s: Shape, t: Shape, counts: seq<int>)
    requires s.m == t.m >= 2 && s.buckets == t.buckets >= 1 && s.u == 0 && t.u == 1 && Counts(t, counts, [2])
    ensures |counts| == (s.buckets + 1) * Half(s) && !Counts(s, counts, [2])
  {
    hide CountIf, Top, Flat;
    assert Half(s) == Half(t);
    SmallFlat(s, 2);
    SmallFlat(t, 2);
    assert Flat(t, 2) == 1 && Flat(s, 2) == 2;
    assert (s.buckets + 1) * Half(s) >= 2 * 1;
    CountAt(t, counts, [2], 1);
    CountOf(AtIndex(t, 1), 2);
    CountOf(AtIndex(s, 1), 2);
  }

  lemma CountOf(p: int -> bool, x: int)
    ensures CountIf(p, [x]) == if p(x) then 1 else 0
  {
    assert [x][..0] == [];
    assert CountIf(p, [x][..0]) == 0;
  }

  lemma SmallFlat(s: Shape, v: nat)
    requires s.m >= 2 && v < 4 && s.u <= 1
    ensures Flat(s, v) == if s.u == 0 then v else v / 2
  {
    BucketIs(s, v);
    assert Pow2(2) == 4;
    BitLenBelow(v, 2);
    assert Bucket(s, v) == 0;
    assert Pow2(0) == 1 && Pow2(1) == 2;
    assert Step(s, 0) == if s.u == 0 then 1 else 2;
  }
}
