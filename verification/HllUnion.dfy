/** Unions and histograms of HyperLogLog registers, over all three encodings (f1srv/hll.go). */
module HllUnion {
  import opened Bytes
  import opened HllDense
  import opened HllSparse
  import opened Hll

  function Max(a: int, b: int): int { if a > b then a else b }

  /** Register by register, the larger. */
  function Union(a: Vector, b: Vector): (r: Vector)
    requires |a| == |b|
    ensures |r| == |a| && forall i :: 0 <= i < |a| ==> r[i] == Max(a[i], b[i])
  {
    seq(|a|, i requires 0 <= i < |a| => Max(a[i], b[i]))
  }

  /** The first registers of max raised to those read so far. */
  ghost predicate Folded(was: Bytes, now: Bytes, read: Vector)
  {
    && |now| == |was|
    && (forall i :: 0 <= i < |was| && i < |read| ==> now[i] == Max(was[i], read[i]))
    && (forall i :: |read| <= i < |was| ==> now[i] == was[i])
  }

  /** Fold a run of one value into max. */
  method FoldRun(max: array<Byte>, i: int, n: int, v: Byte)
    requires 0 <= i && 0 <= n && i + n <= max.Length
    modifies max
    ensures forall k :: 0 <= k < max.Length ==>
                          max[k] == if i <= k < i + n then Max(old(max[k]), v) else old(max[k])
  {
    var j := 0;
    while j < n
      invariant 0 <= j <= n
      invariant forall k :: 0 <= k < max.Length ==>
                              max[k] == if i <= k < i + j then Max(old(max[k]), v) else old(max[k])
    {
      if v > max[i + j] {
        max[i + j] := v;
      }
      j := j + 1;
    }
  }

  lemma FoldedMore(was: Bytes, mid: Bytes, now: Bytes, read: Vector, v: int, n: int)
    requires Folded(was, mid, read) && 0 <= n && |now| == |was| && 0 <= v < 256
    requires |read| + n <= |was| || v == 0
    requires forall k :: 0 <= k < |was| ==> now[k] == if |read| <= k < |read| + n then Max(mid[k], v) else mid[k]
    ensures Folded(was, now, read + Fill(v, n))
  {
  }

  /** The opcode stream folded into max; false when it does not cover exactly 16384 registers. */
  method FoldSparse(max: array<Byte>, s: Bytes) returns (ok: bool)
    requires max.Length == REGISTERS && Whole(s)
    modifies max
    ensures ok <==> |Expand(s)| == REGISTERS
    ensures ok ==> Folded(old(max[..]), max[..], Expand(s))
  {
    hide Whole, Expand, RunLen, RunValue, Fill, Folded;
    var p, i := 0, 0;
    Ends(s);
    ghost var was := max[..];
    assert Folded(was, max[..], Expand(s[..0])) by { NothingFolded(was); }
    while p < |s|
      invariant Boundary(s, p) && i == |Expand(s[..p])|
      invariant Folded(was, max[..], Expand(s[..p]))
      decreases |s| - p
    {
      NextBoundary(s, p);
      AtBoundary(s, p);
      var n := RunLen(s[p..]);
      ghost var mid := max[..];
      if IsVal(s[p]) {
        if n + i > REGISTERS {
          return false;
        }
        FoldRun(max, i, n, RunValue(s[p]));
        FoldedMore(was, mid, max[..], Expand(s[..p]), RunValue(s[p]), n);
      } else {
        ZeroValue(s[p]);
        FoldedMore(was, mid, max[..], Expand(s[..p]), 0, n);
      }
      i := i + n;
      p := p + OpBytes(s[p]);
    }
    AtBoundary(s, p);
    Ends(s);
    assert s[..p] == s;
    ok := i == REGISTERS;
  }

  lemma ZeroValue(b: Byte)
    requires !IsVal(b)
    ensures RunValue(b) == 0
  {
  }

  lemma NothingFolded(was: Bytes)
    ensures Folded(was, was, [])
  {
  }

  /** Packed registers folded into max. */
  method FoldDense(max: array<Byte>, reg: Bytes)
    requires max.Length == REGISTERS && Packed(reg)
    modifies max
    ensures Folded(old(max[..]), max[..], Unpack(reg))
  {
    hide Get;
    ghost var r := Unpack(reg);
    hide Unpack;
    var i := 0;
    while i < REGISTERS
      invariant 0 <= i <= REGISTERS
      invariant forall k :: 0 <= k < REGISTERS ==> max[k] == if k < i then Max(old(max[k]), r[k]) else old(max[k])
    {
      var v := Get(reg, i);
      if v > max[i] {
        max[i] := v;
      }
      i := i + 1;
    }
  }

  lemma FoldedAll(was: Bytes, now: Bytes, read: Vector)
    requires Folded(was, now, read) && |read| == |was|
    ensures now == Union(was, read)
  {
  }

  /** hllMerge: max becomes the union of itself and the blob. */
  method Merge(max: array<Byte>, blob: Bytes) returns (ok: bool)
    requires max.Length == REGISTERS && Readable(blob) && blob[4] != RAW
    modifies max
    ensures ok <==> Sketch(blob)
    ensures ok ==> max[..] == Union(old(max[..]), Registers(blob))
  {
    hide Whole, Expand, Unpack, Folded, Union;
    if blob[4] == DENSE {
      FoldDense(max, Payload(blob));
      ok := true;
    } else {
      ok := FoldSparse(max, Payload(blob));
    }
    if ok {
      FoldedAll(old(max[..]), max[..], Registers(blob));
    }
  }

  /** How many registers hold each value. */
  function Histogram(r: Vector): (h: seq<int>)
    ensures |h| == REGISTER_MAX + 1 && forall v :: 0 <= v <= REGISTER_MAX ==> h[v] == multiset(r)[v]
  {
    seq(REGISTER_MAX + 1, v => multiset(r)[v])
  }

  function Total(h: seq<int>): (n: int)
  {
    if h == [] then 0 else Total(h[..|h| - 1]) + h[|h| - 1]
  }

  lemma {:induction false} TotalBumped(h: seq<int>, v: int)
    requires 0 <= v < |h|
    ensures Total(h[v := h[v] + 1]) == Total(h) + 1
  {
    var g := h[v := h[v] + 1];
    var k := |h| - 1;
    if v == k {
      assert g[..k] == h[..k];
    } else {
      TotalBumped(h[..k], v);
      assert g[..k] == h[..k][v := h[v] + 1];
    }
  }

  lemma {:induction false} TotalOfZeros(n: nat)
    ensures Total(Fill(0, n)) == 0
  {
    if n > 0 {
      TotalOfZeros(n - 1);
      assert Fill(0, n)[..n - 1] == Fill(0, n - 1);
    }
  }

  /** Every register falls in one bucket. */
  lemma {:induction false} HistogramTotal(r: Vector)
    requires forall i :: 0 <= i < |r| ==> 0 <= r[i] <= REGISTER_MAX
    ensures Total(Histogram(r)) == |r|
  {
    if r == [] {
      assert Histogram(r) == Fill(0, REGISTER_MAX + 1);
      TotalOfZeros(REGISTER_MAX + 1);
    } else {
      var k := |r| - 1;
      HistogramTotal(r[..k]);
      HistogramSnoc(r[..k], r[k]);
      assert r == r[..k] + [r[k]];
      TotalBumped(Histogram(r[..k]), r[k]);
    }
  }

  lemma HistogramSnoc(r: Vector, v: int)
    requires 0 <= v <= REGISTER_MAX
    ensures var h := Histogram(r); Histogram(r + [v]) == h[v := h[v] + 1]
  {
  }

  lemma {:induction false} FillCounts(v: int, n: nat)
    ensures multiset(Fill(v, n)) == multiset{}[v := n]
  {
    if n > 0 {
      FillCounts(v, n - 1);
      assert Fill(v, n) == Fill(v, n - 1) + [v];
    }
  }

  lemma HistogramRun(r: Vector, v: int, n: nat)
    requires 0 <= v <= REGISTER_MAX
    ensures var h := Histogram(r); Histogram(r + Fill(v, n)) == h[v := h[v] + n]
  {
    FillCounts(v, n);
  }

  /** A sketch's histogram counts every register, in whatever encoding. */
  lemma HistogramCounts(blob: Bytes)
    requires Sketch(blob)
    ensures Total(Histogram(Registers(blob))) == REGISTERS
  {
    RegistersRange(blob);
    HistogramTotal(Registers(blob));
  }

  /** What is left of a stream of whole opcodes past some whole ones. */
  lemma {:induction false} Rest(a: Bytes, b: Bytes)
    requires Whole(a) && Whole(a + b)
    ensures Whole(b)
    decreases |a|
  {
    if a == [] {
      assert a + b == b;
    } else {
      HeadRun(a, b);
      assert (a + b)[OpBytes(a[0])..] == a[OpBytes(a[0])..] + b;
      Rest(a[OpBytes(a[0])..], b);
    }
  }

  /** A later boundary lies past the whole opcode, and its registers. */
  lemma BoundaryGrows(s: Bytes, p: int, q: int)
    requires Boundary(s, p) && Boundary(s, q) && p < q
    ensures Starts(s[p..]) && q >= p + OpBytes(s[p])
    ensures |Expand(s[..q])| >= |Expand(s[..p])| + RunLen(s[p..])
  {
    hide RunLen, Expand, Whole;
    var mid := s[p..q];
    assert s[..q] == s[..p] + mid && s[p..] == mid + s[q..];
    Rest(s[..p], mid);
    Joins(s[..p], mid);
    FirstOp(mid);
    HeadRun(mid, s[q..]);
    Unfold(mid);
  }

  /** Opcodes that end at register 16384, with nothing or a run of a value after them. */
  ghost predicate FullAt(s: Bytes, p: int)
  {
    Boundary(s, p) && |Expand(s[..p])| == REGISTERS && (p == |s| || IsVal(s[p]))
  }

  /** A run of a value that would pass register 16384. */
  ghost predicate Overflows(s: Bytes, p: int)
  {
    Boundary(s, p) && p < |s| && Starts(s[p..]) && IsVal(s[p]) && |Expand(s[..p])| + RunLen(s[p..]) > REGISTERS
  }

  /** Where the count stops, and on what, there is no other full point. */
  lemma FullOnce(s: Bytes, p: int, q: int)
    requires Boundary(s, p) && (p == |s| || Overflows(s, p)) && FullAt(s, q)
    requires forall k :: 0 <= k < p && Boundary(s, k) ==> !Overflows(s, k)
    ensures q == p
  {
    hide RunLen, Expand, Whole;
    if q < p {
      BoundaryGrows(s, q, p);
    }
    if p < q {
      BoundaryGrows(s, p, q);
    }
  }

  lemma PassedBoundaries(s: Bytes, p: int)
    requires Boundary(s, p) && p < |s| && Starts(s[p..]) && !Overflows(s, p)
    requires forall k :: 0 <= k < p && Boundary(s, k) ==> !Overflows(s, k)
    ensures forall k :: 0 <= k < p + OpBytes(s[p]) && Boundary(s, k) ==> !Overflows(s, k)
  {
    hide Overflows;
    forall k | 0 <= k < p + OpBytes(s[p]) && Boundary(s, k) ensures !Overflows(s, k) {
      if k > p { BoundaryGrows(s, p, k); }
    }
  }

  /** Bucket by bucket, off an opcode stream; the count stops at a run of a value that would pass 16384. */
  method SparseHistogram(s: Bytes) returns (h: seq<int>, ok: bool, ghost at: int)
    requires Whole(s)
    ensures ok <==> exists p :: FullAt(s, p)
    ensures ok ==> FullAt(s, at) && h == Histogram(Expand(s[..at]))
    ensures |Expand(s)| == REGISTERS ==> ok && at == |s|
  {
    hide Whole, Expand, RunLen, RunValue, Histogram, Fill;
    var p, idx := 0, 0;
    Ends(s);
    h := seq(REGISTER_MAX + 1, _ => 0);
    assert h == Histogram([]) by { HistogramOfNone(h); }
    while p < |s|
      invariant Boundary(s, p) && idx == |Expand(s[..p])| && h == Histogram(Expand(s[..p]))
      invariant forall k :: 0 <= k < p && Boundary(s, k) ==> !Overflows(s, k)
      decreases |s| - p
    {
      NextBoundary(s, p);
      var n := RunLen(s[p..]);
      if IsVal(s[p]) && n + idx > REGISTERS {
        assert Overflows(s, p);
        break;
      }
      PassedBoundaries(s, p);
      HistogramRun(Expand(s[..p]), RunValue(s[p]), n);
      h := h[RunValue(s[p]) := h[RunValue(s[p])] + n];
      idx := idx + n;
      p := p + OpBytes(s[p]);
    }
    at := p;
    ok := idx == REGISTERS;
    assert ok ==> FullAt(s, p);
    if q :| FullAt(s, q) {
      FullOnce(s, p, q);
    }
    if |Expand(s)| == REGISTERS {
      Ends(s);
      assert FullAt(s, |s|);
      FullOnce(s, p, |s|);
    }
  }

  /** Zeros for every register and one register more: the histogram is taken, the union refused. */
  lemma LooseStream()
    ensures var s := ZeroRun(REGISTERS) + [ValByte(1, 1)];
            Whole(s) && (exists p :: FullAt(s, p)) && |Expand(s)| == REGISTERS + 1
  {
    hide RunLen, Expand, Whole, ZeroRun, ValByte, Fill;
    var a, b := ZeroRun(REGISTERS), [ValByte(1, 1)];
    LongRun(REGISTERS);
    ValueRun(1, 1);
    OneOp(a);
    OneOp(b);
    Joins(a, b);
    var s := a + b;
    assert s[..2] == a && s[2..] == b;
    assert FullAt(s, 2);
  }

  lemma LongRun(l: int)
    requires ZERO_MAX_LEN < l <= XZERO_MAX_LEN
    ensures Starts(ZeroRun(l)) && RunLen(ZeroRun(l)) == l
  {
    hide ZeroRun, XzeroLen, ZeroLen;
  }

  lemma ValueRun(v: int, l: int)
    requires 1 <= v <= VAL_MAX_VALUE && 1 <= l <= VAL_MAX_LEN
    ensures Starts([ValByte(v, l)]) && RunLen([ValByte(v, l)]) == l
  {
    hide ValByte;
  }

  lemma HistogramOfNone(h: seq<int>)
    requires |h| == REGISTER_MAX + 1 && forall v :: 0 <= v < |h| ==> h[v] == 0
    ensures h == Histogram([])
  {
  }

  /** Bucket by bucket, off a register vector read one at a time. */
  method RegisterHistogram(blob: Bytes) returns (h: seq<int>)
    requires Sketch(blob) && blob[4] != SPARSE
    ensures h == Histogram(Registers(blob))
  {
    hide Histogram, Unpack, Get;
    var reg := Payload(blob);
    ghost var r := Registers(blob);
    RegistersRange(blob);
    h := seq(REGISTER_MAX + 1, _ => 0);
    HistogramOfNone(h);
    var j := 0;
    assert r[..0] == [];
    while j < REGISTERS
      invariant 0 <= j <= REGISTERS && h == Histogram(r[..j])
    {
      var v: int := if blob[4] == DENSE then Get(reg, j) else reg[j];
      assert v == r[j];
      HistogramSnoc(r[..j], v);
      assert r[..j + 1] == r[..j] + [v];
      h := h[v := h[v] + 1];
      j := j + 1;
    }
    assert r[..j] == r;
  }

  /** hllRegHisto: each encoding yields the histogram of the vector it stands for.  A sparse blob is taken when
      its opcodes reach 16384 with nothing, or a run of a value, to follow; that run is left out. */
  method RegHisto(blob: Bytes) returns (h: seq<int>, ok: bool, ghost at: int)
    requires Readable(blob) && (blob[4] == RAW ==> |Payload(blob)| == REGISTERS)
    ensures ok <==> (blob[4] == SPARSE ==> exists p :: FullAt(Payload(blob), p))
    ensures ok && blob[4] == SPARSE ==> FullAt(Payload(blob), at) && h == Histogram(Expand(Payload(blob)[..at]))
    ensures Sketch(blob) ==> ok && h == Histogram(Registers(blob))
  {
    hide Histogram, Unpack, Expand, Whole;
    at := 0;
    if blob[4] == SPARSE {
      var s := Payload(blob);
      h, ok, at := SparseHistogram(s);
      assert s[..|s|] == s;
    } else {
      h := RegisterHistogram(blob);
      ok := true;
    }
  }
}
