/** A HyperLogLog blob: sixteen header bytes, then packed registers or an opcode stream (f1srv/hll.go). */
module Hll {
  import opened Bytes
  import opened HllDense
  import opened HllSparse

  const HDR_SIZE: int := 16
  const DENSE: int := 0
  const SPARSE: int := 1
  const RAW: int := 255
  const SPARSE_MAX_BYTES: int := 3000
  const MAGIC: Bytes := [72, 89, 76, 76]

  /** hllValid: the test made of a stored string before any operation on it. */
  predicate Tagged(blob: Bytes)
  {
    && |blob| >= HDR_SIZE && blob[..4] == MAGIC && blob[4] <= 1
    && (blob[4] == DENSE ==> |blob| == HDR_SIZE + DENSE_BYTES)
  }

  function Payload(blob: Bytes): (s: Bytes)
    requires |blob| >= HDR_SIZE
  {
    blob[HDR_SIZE..]
  }

  /** A blob one of whose encodings can be read to its end. */
  predicate Readable(blob: Bytes)
  {
    && |blob| >= HDR_SIZE
    && (blob[4] == DENSE ==> Packed(Payload(blob)))
    && (blob[4] == SPARSE ==> Whole(Payload(blob)))
    && (blob[4] == RAW ==> forall i :: 0 <= i < |Payload(blob)| ==> Payload(blob)[i] <= REGISTER_MAX)
    && (blob[4] == DENSE || blob[4] == SPARSE || blob[4] == RAW)
  }

  /** The register vector a blob stands for, whatever its encoding. */
  function Registers(blob: Bytes): (r: Vector)
    requires Readable(blob)
  {
    if blob[4] == DENSE then Unpack(Payload(blob))
    else if blob[4] == SPARSE then Expand(Payload(blob))
    else Payload(blob)
  }

  /** A blob that stands for exactly 16384 registers. */
  predicate Sketch(blob: Bytes)
  {
    Readable(blob) && |Registers(blob)| == REGISTERS
  }

  /** One register raised to at least count. */
  function Raise(r: Vector, index: int, count: int): (r': Vector)
    requires 0 <= index < |r|
  {
    if count > r[index] then r[index := count] else r
  }

  lemma {:induction false} ExpandRange(s: Bytes)
    requires Whole(s)
    ensures forall i :: 0 <= i < |Expand(s)| ==> 0 <= Expand(s)[i] <= VAL_MAX_VALUE
    decreases |s|
  {
    if s != [] {
      ExpandRange(s[OpBytes(s[0])..]);
    }
  }

  lemma RegistersRange(blob: Bytes)
    requires Readable(blob)
    ensures forall i :: 0 <= i < |Registers(blob)| ==> 0 <= Registers(blob)[i] <= REGISTER_MAX
  {
    if blob[4] == SPARSE { ExpandRange(Payload(blob)); }
  }

  /** hllCreate: one opcode covers all registers as zero. */
  function Create(): (blob: Bytes)
    ensures Tagged(blob) && blob[4] == SPARSE
  {
    MAGIC + [SPARSE] + Zeros(11) + ZeroRun(REGISTERS)
  }

  function Zeros(n: nat): (b: Bytes)
    ensures |b| == n && forall i :: 0 <= i < n ==> b[i] == 0
  {
    seq(n, _ => 0)
  }

  lemma CreateIsEmpty()
    ensures Sketch(Create()) && Registers(Create()) == Fill(0, REGISTERS)
  {
    assert Payload(Create()) == ZeroRun(REGISTERS);
    RunOf(0, REGISTERS);
  }

  /** Write one value to a run of packed registers. */
  method FillDense(reg0: Bytes, idx: int, n: int, v: int) returns (reg: Bytes)
    requires Packed(reg0) && 0 <= idx && 0 <= n && idx + n <= REGISTERS && 0 <= v <= REGISTER_MAX
    ensures Packed(reg)
    ensures Unpack(reg) == Unpack(reg0)[..idx] + Fill(v, n) + Unpack(reg0)[idx + n..]
  {
    hide Set, Unpack;
    reg := reg0;
    var k := 0;
    ghost var r0 := Unpack(reg0);
    while k < n
      invariant 0 <= k <= n && Packed(reg)
      invariant Unpack(reg) == r0[..idx] + Fill(v, k) + r0[idx + k..]
    {
      SetUpdates(reg, idx + k, v);
      assert (r0[..idx] + Fill(v, k) + r0[idx + k..])[idx + k := v] == r0[..idx] + Fill(v, k + 1) + r0[idx + k + 1..];
      reg := Set(reg, idx + k, v);
      k := k + 1;
    }
  }

  /** The dense registers after one more opcode. */
  lemma DenseStep(reg: Vector, done: Vector, v: int, n: int)
    requires |done| + n <= REGISTERS && n >= 0 && reg == done + Fill(0, REGISTERS - |done|)
    ensures reg[..|done|] + Fill(v, n) + reg[|done| + n..] == (done + Fill(v, n)) + Fill(0, REGISTERS - |done| - n)
  {
  }

  /** Unpack a stream of opcodes into packed registers; false when it does not cover exactly 16384. */
  method Densify(s: Bytes) returns (reg: Bytes, ok: bool)
    requires Whole(s)
    ensures ok <==> |Expand(s)| == REGISTERS
    ensures ok ==> Packed(reg) && Unpack(reg) == Expand(s)
  {
    hide Whole, Expand, Unpack, RunLen, RunValue, Fill;
    reg := Zeros(DENSE_BYTES);
    var p, idx := 0, 0;
    Ends(s);
    assert Unpack(reg) == [] + Fill(0, REGISTERS) by { UnpackZero(reg); AllZero(Unpack(reg)); }
    while p < |s|
      invariant Boundary(s, p) && idx == |Expand(s[..p])| && Packed(reg)
      invariant idx <= REGISTERS ==> Unpack(reg) == Expand(s[..p]) + Fill(0, REGISTERS - idx)
      decreases |s| - p
    {
      NextBoundary(s, p);
      AtBoundary(s, p);
      var n := RunLen(s[p..]);
      if IsVal(s[p]) {
        if n + idx > REGISTERS {
          ok := false;
          return;
        }
        DenseStep(Unpack(reg), Expand(s[..p]), RunValue(s[p]), n);
        reg := FillDense(reg, idx, n, RunValue(s[p]));
      } else if idx + n <= REGISTERS {
        ZerosStay(Expand(s[..p]), s[p], n, REGISTERS - idx);
      }
      idx := idx + n;
      p := p + OpBytes(s[p]);
    }
    AtBoundary(s, p);
    Ends(s);
    ok := idx == REGISTERS;
    assert ok ==> Expand(s[..p]) + Fill(0, 0) == Expand(s[..p]) by { NoFill(); }
  }

  lemma AllZero(r: Vector)
    requires |r| == REGISTERS && forall i :: 0 <= i < |r| ==> r[i] == 0
    ensures r == [] + Fill(0, REGISTERS)
  {
  }

  lemma NoFill()
    ensures Fill(0, 0) == []
  {
  }

  /** A run of zeros leaves zeroed registers as they are. */
  lemma ZerosStay(done: Vector, b: Byte, n: int, left: int)
    requires 0 <= n <= left && !IsVal(b)
    ensures done + Fill(0, left) == (done + Fill(RunValue(b), n)) + Fill(0, left - n)
  {
  }

  /** hllSparseToDense: the header and its cached cardinality carried over. */
  method ToDense(blob: Bytes) returns (dense: Bytes, ok: bool)
    requires Readable(blob) && blob[4] != RAW
    ensures ok <==> Sketch(blob)
    ensures ok ==> Sketch(dense) && dense[4] == DENSE && Registers(dense) == Registers(blob)
    ensures ok ==> dense[..4] == blob[..4] && dense[5..HDR_SIZE] == blob[5..HDR_SIZE]
    ensures ok && Tagged(blob) ==> Tagged(dense)
  {
    hide Unpack, Expand, Whole;
    if blob[4] == DENSE {
      dense, ok := blob, true;
    } else {
      var reg;
      reg, ok := Densify(Payload(blob));
      dense := blob[..4] + [DENSE] + blob[5..HDR_SIZE] + reg;
      assert dense[HDR_SIZE..] == reg;
    }
  }

  /** hllDenseSet on the registers of a dense blob. */
  method DenseSet(blob: Bytes, index: int, count: int) returns (blob': Bytes, status: int)
    requires Readable(blob) && blob[4] == DENSE && 0 <= index < REGISTERS && 0 <= count <= REGISTER_MAX
    ensures Sketch(blob') && blob'[..HDR_SIZE] == blob[..HDR_SIZE]
    ensures Registers(blob') == Raise(Registers(blob), index, count)
    ensures status == if count > Registers(blob)[index] then 1 else 0
    ensures status == 0 ==> blob' == blob
    ensures Tagged(blob) ==> Tagged(blob')
  {
    hide Unpack, Get, Set;
    var reg := Payload(blob);
    blob', status := blob, 0;
    if count > Get(reg, index) {
      SetUpdates(reg, index, count);
      blob' := blob[..HDR_SIZE] + Set(reg, index, count);
      assert Payload(blob') == Set(reg, index, count);
      assert blob'[..4] == blob[..HDR_SIZE][..4] == blob[..4];
      status := 1;
    }
  }

  /** hllSparsePromote. */
  method Promote(blob: Bytes, index: int, count: int) returns (blob': Bytes, status: int)
    requires Readable(blob) && blob[4] == SPARSE && 0 <= index < REGISTERS && 0 <= count <= REGISTER_MAX
    ensures status == if Sketch(blob) then 1 else -1
    ensures status == -1 ==> blob' == blob
    ensures status == 1 ==> Readable(blob') && Sketch(blob') && blob'[4] == DENSE && Registers(blob') == Raise(Registers(blob), index, count)
    ensures status == 1 && Tagged(blob) ==> Tagged(blob')
  {
    hide Expand, Whole, Raise;
    var dense, ok := ToDense(blob);
    if !ok {
      return blob, -1;
    }
    blob', status := DenseSet(dense, index, count);
    assert blob'[4] == blob'[..HDR_SIZE][4];
    status := 1;
  }

  predicate CacheValid(blob: Bytes)
    requires |blob| >= HDR_SIZE
  {
    blob[15] < 128
  }

  /** hllInvalidateCache. */
  function Invalidate(blob: Bytes): (blob': Bytes)
    requires |blob| >= HDR_SIZE
    ensures |blob'| == |blob| && !CacheValid(blob') && blob'[..15] == blob[..15] && Payload(blob') == Payload(blob)
  {
    if blob[15] < 128 then blob[15 := blob[15] + 128] else blob
  }

  lemma InvalidateKeeps(blob: Bytes)
    requires Readable(blob)
    ensures Readable(Invalidate(blob)) && Registers(Invalidate(blob)) == Registers(blob)
    ensures Tagged(blob) ==> Tagged(Invalidate(blob))
    ensures Invalidate(blob)[4] == blob[4]
  {
    hide Unpack, Expand, Whole;
    var b := Invalidate(blob);
    assert b[4] == b[..15][4];
    assert b[..4] == b[..15][..4] == blob[..15][..4] == blob[..4];
  }

  /** The blob with its opcode stream replaced, neighbours merged, and the cache invalidated. */
  method Updated(blob: Bytes, s: Bytes, prev: int) returns (blob': Bytes)
    requires |blob| >= HDR_SIZE && blob[4] == SPARSE && Boundary(s, if prev < 0 then 0 else prev)
    ensures Whole(s)
    ensures Readable(blob') && blob'[4] == SPARSE && Registers(blob') == Expand(s) && !CacheValid(blob')
    ensures Tagged(blob) ==> Tagged(blob')
    ensures |blob'| <= HDR_SIZE + |s|
  {
    hide Whole, Expand;
    var t := MergeValues(s, if prev < 0 then 0 else prev);
    var u := blob[..HDR_SIZE] + t;
    assert Payload(u) == t;
    assert u[..4] == blob[..HDR_SIZE][..4] == blob[..4];
    blob' := Invalidate(u);
    InvalidateKeeps(u);
  }

  /** A spliced stream has a boundary where the opcode before the splice starts. */
  lemma SplicedBoundary(s: Bytes, p: int, w: int, ops: Bytes, prev: int)
    requires Boundary(s, p) && 0 <= w && p + w <= |s| && Whole(s[p + w..]) && Whole(ops)
    requires -1 <= prev <= p && (prev >= 0 ==> Whole(s[..prev]) && Whole(s[prev..p]))
    ensures Boundary(Spliced(s, p, w, ops), if prev < 0 then 0 else prev)
  {
    hide Whole, Expand;
    var t, tail := Spliced(s, p, w, ops), ops + s[p + w..];
    Joins(ops, s[p + w..]);
    SplicedParts(s, p, w, ops, if prev < 0 then 0 else prev);
    if prev < 0 {
      Joins(s[..p], tail);
      Ends(t);
    } else {
      Joins(s[prev..p], tail);
    }
  }

  lemma SplicedParts(s: Bytes, p: int, w: int, ops: Bytes, from: int)
    requires 0 <= from <= p && 0 <= w && p + w <= |s|
    ensures var t, tail := Spliced(s, p, w, ops), ops + s[p + w..];
            t == s[..p] + tail && t[..from] == s[..from] && t[from..] == s[from..p] + tail
  {
  }

  /** hllSparseSet on the opcode covering the register: in place, spliced, or promoted. */
  method SetRun(blob: Bytes, p: int, first: int, prev: int, index: int, count: int) returns (blob': Bytes, status: int)
    requires Readable(blob) && blob[4] == SPARSE && 0 <= index < REGISTERS && 1 <= count <= VAL_MAX_VALUE
    requires var s := Payload(blob);
             && 0 <= p < |s| && Boundary(s, p) && Starts(s[p..]) && first == |Expand(s[..p])| <= index < first + RunLen(s[p..])
             && -1 <= prev <= p && (prev >= 0 ==> Whole(s[..prev]) && Whole(s[prev..p]))
             && RunValue(s[p]) < count
    ensures status == 1 || (status == -1 && blob' == blob && !Sketch(blob))
    ensures status == 1 ==> index < |Registers(blob)| && Registers(blob)[index] < count && Readable(blob')
    ensures status == 1 ==> blob'[4] != RAW && Registers(blob') == Registers(blob)[index := count]
    ensures status == 1 && Tagged(blob) ==> Tagged(blob')
    ensures blob'[4] == SPARSE ==> |blob'| <= |blob| || |blob'| <= 3000
  {
    hide Whole, Expand, RunLen, RunValue, Split, Spliced, Unpack, Sketch, Tagged, Boundary, Packed, ValByte, IsXzero;
    var s := Payload(blob);
    var n, w := RunLen(s[p..]), OpBytes(s[p]);
    RunFits(s, p);
    SplitRaises(s, p, prev, index, count);
    var ops := Split(s[p], n, index - first, count);
    if n == 1 && !IsXzero(s[p]) {
      SplitOfOne(s[p], count);
      ops := [ValByte(count, 1)];
    } else if |ops| > w && |blob| + |ops| - w > SPARSE_MAX_BYTES {
      blob', status := Promote(blob, index, count);
      return;
    }
    SplicedLength(s, p, w, ops);
    blob' := Updated(blob, Spliced(s, p, w, ops), prev);
    status := 1;
  }

  lemma SplicedLength(s: Bytes, p: int, w: int, ops: Bytes)
    requires 0 <= p && 0 <= w && p + w <= |s|
    ensures |Spliced(s, p, w, ops)| == |s| + |ops| - w
  {
  }

  /** Splitting a run at a register raises that register of the whole stream. */
  lemma SplitRaises(s: Bytes, p: int, prev: int, index: int, count: int)
    requires Boundary(s, p) && p < |s| && Starts(s[p..])
    requires |Expand(s[..p])| <= index < |Expand(s[..p])| + RunLen(s[p..]) && 1 <= count <= VAL_MAX_VALUE
    requires IsVal(s[p]) ==> RunLen(s[p..]) <= VAL_MAX_LEN
    requires -1 <= prev <= p && (prev >= 0 ==> Whole(s[..prev]) && Whole(s[prev..p]))
    ensures p + OpBytes(s[p]) <= |s| && Whole(s) && index < |Expand(s)| && Expand(s)[index] == RunValue(s[p])
    ensures var t := Spliced(s, p, OpBytes(s[p]), Split(s[p], RunLen(s[p..]), index - |Expand(s[..p])|, count));
            Boundary(t, if prev < 0 then 0 else prev) && Whole(t) && Expand(t) == Expand(s)[index := count]
  {
    hide Whole, Expand, RunLen, RunValue, Split, Spliced, Fill;
    var n, i := RunLen(s[p..]), index - |Expand(s[..p])|;
    NextBoundary(s, p);
    SplitSpells(s[p], n, i, count);
    SpliceRaises(s, p, Split(s[p], n, i, count), i, count);
    SplicedBoundary(s, p, OpBytes(s[p]), Split(s[p], n, i, count), prev);
  }

  lemma RunFits(s: Bytes, p: int)
    requires 0 <= p < |s| && Starts(s[p..])
    ensures RunLen(s[p..]) <= XZERO_MAX_LEN && (IsVal(s[p]) ==> RunLen(s[p..]) <= VAL_MAX_LEN)
  {
  }

  lemma SplitOfOne(b: Byte, count: int)
    requires 1 <= count <= VAL_MAX_VALUE
    ensures Split(b, 1, 0, count) == [ValByte(count, 1)]
  {
  }

  /** hllSparseSet. */
  method SparseSet(blob: Bytes, index: int, count: int) returns (blob': Bytes, status: int)
    requires Readable(blob) && blob[4] == SPARSE && 0 <= index < REGISTERS && 1 <= count <= REGISTER_MAX
    ensures status == -1 ==> !Sketch(blob) && blob' == blob
    ensures status != -1 ==> index < |Registers(blob)| && Readable(blob') && blob'[4] != RAW
    ensures status != -1 ==> Registers(blob') == Raise(Registers(blob), index, count)
    ensures status != -1 ==> status == if count > Registers(blob)[index] then 1 else 0
    ensures status == 0 ==> blob' == blob
    ensures status != -1 && Tagged(blob) ==> Tagged(blob')
    ensures blob'[4] == SPARSE ==> |blob'| <= |blob| || |blob'| <= 3000
  {
    hide Whole, Expand, RunLen, Unpack;
    RegistersRange(blob);
    if count > VAL_MAX_VALUE {
      ExpandRange(Payload(blob));
      blob', status := Promote(blob, index, count);
      return;
    }
    var s := Payload(blob);
    var found, p, first, prev := Locate(s, index);
    if !found {
      return blob, -1;
    }
    RunAt(s, p, index);
    if IsVal(s[p]) && ValValue(s[p]) >= count {
      return blob, 0;
    }
    blob', status := SetRun(blob, p, first, prev, index, count);
  }

  lemma RunAt(s: Bytes, p: int, index: int)
    requires Boundary(s, p) && p < |s| && Starts(s[p..]) && |Expand(s[..p])| <= index < |Expand(s[..p])| + RunLen(s[p..])
    ensures Whole(s) && index < |Expand(s)| && Expand(s)[index] == RunValue(s[p])
  {
    hide Whole, Expand, RunLen, RunValue;
    NextBoundary(s, p);
    AtBoundary(s, p);
  }
}
