/** The run-length opcode stream of a sparse HyperLogLog (f1srv/hll.go). */
module HllSparse {
  import opened Bytes
  import opened HllDense

  const VAL_MAX_VALUE: int := 32
  const VAL_MAX_LEN: int := 4
  const ZERO_MAX_LEN: int := 64
  const XZERO_MAX_LEN: int := 16384

  /* 00llllll is a run of zeros, 01llllll llllllll a long one, 1vvvvvll a run of one value. */
  predicate IsZero(b: Byte) { b < 64 }
  predicate IsXzero(b: Byte) { 64 <= b < 128 }
  predicate IsVal(b: Byte) { b >= 128 }

  function ZeroLen(b: Byte): int { b % 64 + 1 }
  function XzeroLen(b0: Byte, b1: Byte): int { b0 % 64 * 256 + b1 + 1 }

  function ValValue(b: Byte): (v: int)
    ensures 1 <= v <= VAL_MAX_VALUE
  {
    b / 4 % 32 + 1
  }

  function ValLen(b: Byte): (l: int)
    ensures 1 <= l <= VAL_MAX_LEN
  {
    b % 4 + 1
  }

  function ValByte(v: int, l: int): (b: Byte)
    requires 1 <= v <= VAL_MAX_VALUE && 1 <= l <= VAL_MAX_LEN
    ensures IsVal(b) && ValValue(b) == v && ValLen(b) == l
  {
    (v - 1) * 4 + (l - 1) + 128
  }

  /** The opcode of a run of l zeros. */
  function ZeroRun(l: int): (s: Bytes)
    requires 1 <= l <= XZERO_MAX_LEN
    ensures l <= ZERO_MAX_LEN ==> |s| == 1 && IsZero(s[0]) && ZeroLen(s[0]) == l
    ensures l > ZERO_MAX_LEN ==> |s| == 2 && IsXzero(s[0]) && XzeroLen(s[0], s[1]) == l
  {
    if l > ZERO_MAX_LEN then [(l - 1) / 256 + 64, (l - 1) % 256] else [l - 1]
  }

  function OpBytes(b: Byte): (w: int)
    ensures w == 1 || w == 2
  {
    if IsXzero(b) then 2 else 1
  }

  /** The stream starts with a whole opcode. */
  predicate Starts(s: Bytes)
  {
    s != [] && OpBytes(s[0]) <= |s|
  }

  function RunLen(s: Bytes): (n: int)
    requires Starts(s)
    ensures 1 <= n <= XZERO_MAX_LEN
  {
    if IsZero(s[0]) then ZeroLen(s[0]) else if IsXzero(s[0]) then XzeroLen(s[0], s[1]) else ValLen(s[0])
  }

  function RunValue(b: Byte): (v: int)
    ensures 0 <= v <= VAL_MAX_VALUE
  {
    if IsVal(b) then ValValue(b) else 0
  }

  function Fill(v: int, n: int): (r: Vector)
    requires 0 <= n
    ensures |r| == n && forall i :: 0 <= i < n ==> r[i] == v
  {
    seq(n, _ => v)
  }

  /** A stream of whole opcodes. */
  predicate Whole(s: Bytes)
  {
    s == [] || (Starts(s) && Whole(s[OpBytes(s[0])..]))
  }

  /** The registers a stream of opcodes spells out. */
  function Expand(s: Bytes): (r: Vector)
    requires Whole(s)
  {
    if s == [] then [] else Fill(RunValue(s[0]), RunLen(s)) + Expand(s[OpBytes(s[0])..])
  }

  lemma FirstOp(s: Bytes)
    requires Whole(s) && s != []
    ensures Starts(s)
  {
  }

  lemma Nothing()
    ensures Whole([]) && Expand([]) == []
  {
  }

  lemma Unfold(s: Bytes)
    requires Starts(s)
    ensures Whole(s) <==> Whole(s[OpBytes(s[0])..])
    ensures Whole(s) ==> Expand(s) == Fill(RunValue(s[0]), RunLen(s)) + Expand(s[OpBytes(s[0])..])
  {
  }

  lemma {:induction false} Joins(a: Bytes, b: Bytes)
    requires Whole(a) && Whole(b)
    ensures Whole(a + b) && Expand(a + b) == Expand(a) + Expand(b)
    decreases |a|
  {
    hide RunLen, RunValue, Fill, OpBytes, Whole, Expand;
    if a == [] {
      Nothing();
      assert a + b == b;
      assert Expand(a) + Expand(b) == Expand(b);
    } else {
      FirstOp(a);
      var ab, w := a + b, OpBytes(a[0]);
      assert ab[w..] == a[w..] + b;
      HeadRun(a, b);
      Unfold(a);
      Joins(a[w..], b);
      Unfold(ab);
      assert Fill(RunValue(a[0]), RunLen(a)) + (Expand(a[w..]) + Expand(b)) == Expand(a) + Expand(b);
    }
  }

  lemma HeadRun(a: Bytes, b: Bytes)
    requires Starts(a)
    ensures Starts(a + b) && RunLen(a + b) == RunLen(a) && (a + b)[0] == a[0]
  {
  }

  /** A position between two opcodes. */
  ghost predicate Boundary(s: Bytes, p: int)
  {
    0 <= p <= |s| && Whole(s[..p]) && Whole(s[p..])
  }

  lemma OneOp(s: Bytes)
    requires Starts(s) && |s| == OpBytes(s[0])
    ensures Whole(s) && Expand(s) == Fill(RunValue(s[0]), RunLen(s))
  {
    assert s[OpBytes(s[0])..] == [];
  }

  /** Past one opcode is a boundary again. */
  lemma NextBoundary(s: Bytes, p: int)
    requires Boundary(s, p) && p < |s|
    ensures Starts(s[p..])
    ensures var w := OpBytes(s[p]); var run := Fill(RunValue(s[p]), RunLen(s[p..]));
            && p + w <= |s| && Boundary(s, p + w) && Whole(s[p..p + w])
            && Expand(s[..p + w]) == Expand(s[..p]) + run
            && Expand(s[p..]) == run + Expand(s[p + w..])
            && Expand(s[p..p + w]) == run
  {
    hide RunLen, RunValue, Fill;
    var w := OpBytes(s[p]);
    var op := s[p..p + w];
    assert s[p..][w..] == s[p + w..];
    assert s[p..] == op + s[p + w..];
    HeadRun(op, s[p + w..]);
    OneOp(op);
    Joins(s[..p], op);
    assert s[..p + w] == s[..p] + op;
  }

  lemma AtBoundary(s: Bytes, p: int)
    requires Boundary(s, p)
    ensures Whole(s) && Expand(s) == Expand(s[..p]) + Expand(s[p..])
  {
    hide Whole, Expand;
    Joins(s[..p], s[p..]);
    assert s == s[..p] + s[p..];
  }

  lemma Ends(s: Bytes)
    requires Whole(s)
    ensures Boundary(s, 0) && Boundary(s, |s|) && Expand(s[..0]) == [] && Expand(s[|s|..]) == []
    ensures Expand(s[0..]) == Expand(s) == Expand(s[..|s|])
  {
    assert s[0..] == s && s[..|s|] == s && s[..0] == [] && s[|s|..] == [];
  }

  /** Find the opcode that covers a register, and the one before it. */
  method Locate(s: Bytes, index: int) returns (found: bool, p: int, first: int, prev: int)
    requires Whole(s) && 0 <= index
    ensures found <==> index < |Expand(s)|
    ensures found ==> Boundary(s, p) && p < |s| && Starts(s[p..]) && first == |Expand(s[..p])| <= index < first + RunLen(s[p..])
    ensures found ==> -1 <= prev <= p && (prev >= 0 ==> Whole(s[..prev]) && Whole(s[prev..p]))
  {
    hide RunLen, RunValue, Fill, Whole, Expand;
    p, first, prev := 0, 0, -1;
    Ends(s);
    while p < |s|
      invariant Boundary(s, p) && first == |Expand(s[..p])| <= index
      invariant -1 <= prev <= p && (prev >= 0 ==> Whole(s[..prev]) && Whole(s[prev..p]))
      decreases |s| - p
    {
      NextBoundary(s, p);
      AtBoundary(s, p);
      var span := RunLen(s[p..]);
      if index <= first + span - 1 {
        found := true;
        return;
      }
      prev := p;
      p := p + OpBytes(s[p]);
      first := first + span;
    }
    Ends(s);
    assert s[..p] == s;
    found := false;
  }

  /** The stream with the opcode of w bytes at p replaced. */
  function Spliced(s: Bytes, p: int, w: int, ops: Bytes): (t: Bytes)
    requires 0 <= p && 0 <= w && p + w <= |s|
  {
    s[..p] + ops + s[p + w..]
  }

  /** Replacing one opcode by opcodes that raise one register of its run raises that register of all. */
  lemma SpliceRaises(s: Bytes, p: int, ops: Bytes, i: int, v: int)
    requires Boundary(s, p) && p < |s| && Starts(s[p..]) && Whole(ops)
    requires 0 <= i < RunLen(s[p..]) && Expand(ops) == Fill(RunValue(s[p]), RunLen(s[p..]))[i := v]
    ensures p + OpBytes(s[p]) <= |s|
    ensures var t := Spliced(s, p, OpBytes(s[p]), ops); var at := |Expand(s[..p])| + i;
            && Whole(t) && Whole(s) && at < |Expand(s)| && Expand(s)[at] == RunValue(s[p])
            && Expand(t) == Expand(s)[at := v]
  {
    hide RunLen, RunValue, Whole, Expand, Fill;
    NextBoundary(s, p);
    AtBoundary(s, p);
    var w := OpBytes(s[p]);
    var run := Fill(RunValue(s[p]), RunLen(s[p..]));
    var a, b := Expand(s[..p]), Expand(s[p + w..]);
    Joins(s[..p], ops);
    Joins(s[..p] + ops, s[p + w..]);
    assert Expand(s) == a + (run + b);
    assert a + run[i := v] + b == (a + (run + b))[|a| + i := v];
  }

  /** The opcodes that split a run at one of its registers, as many as five bytes. */
  function Split(b: Byte, n: int, i: int, count: int): (ops: Bytes)
    requires 0 <= i < n <= XZERO_MAX_LEN && 1 <= count <= VAL_MAX_VALUE && (IsVal(b) ==> n <= VAL_MAX_LEN)
  {
    var before := if i == 0 then [] else if IsVal(b) then [ValByte(ValValue(b), i)] else ZeroRun(i);
    var after := if i == n - 1 then [] else if IsVal(b) then [ValByte(ValValue(b), n - 1 - i)] else ZeroRun(n - 1 - i);
    before + [ValByte(count, 1)] + after
  }

  lemma RunOf(b: Byte, l: int)
    requires 1 <= l <= XZERO_MAX_LEN && (IsVal(b) ==> l <= VAL_MAX_LEN)
    ensures var ops := if IsVal(b) then [ValByte(ValValue(b), l)] else ZeroRun(l);
            Whole(ops) && Expand(ops) == Fill(RunValue(b), l)
  {
    hide Fill;
    OneOp(if IsVal(b) then [ValByte(ValValue(b), l)] else ZeroRun(l));
  }

  lemma OneVal(count: int)
    requires 1 <= count <= VAL_MAX_VALUE
    ensures Whole([ValByte(count, 1)]) && Expand([ValByte(count, 1)]) == [count]
  {
    OneOp([ValByte(count, 1)]);
  }

  lemma SplitSpells(b: Byte, n: int, i: int, count: int)
    requires 0 <= i < n <= XZERO_MAX_LEN && 1 <= count <= VAL_MAX_VALUE && (IsVal(b) ==> n <= VAL_MAX_LEN)
    ensures Whole(Split(b, n, i, count)) && Expand(Split(b, n, i, count)) == Fill(RunValue(b), n)[i := count]
  {
    hide ZeroRun, ValByte, RunValue, Whole, Expand;
    assert Whole([]) && Expand([]) == [] by { Nothing(); }
    var before := if i == 0 then [] else if IsVal(b) then [ValByte(ValValue(b), i)] else ZeroRun(i);
    var after := if i == n - 1 then [] else if IsVal(b) then [ValByte(ValValue(b), n - 1 - i)] else ZeroRun(n - 1 - i);
    if i > 0 { RunOf(b, i); }
    if i < n - 1 { RunOf(b, n - 1 - i); }
    var v := RunValue(b);
    assert Expand(before) == Fill(v, i) && Expand(after) == Fill(v, n - 1 - i);
    OneVal(count);
    Joins(before, [ValByte(count, 1)]);
    Joins(before + [ValByte(count, 1)], after);
    assert Fill(v, i) + [count] + Fill(v, n - 1 - i) == Fill(v, n)[i := count];
  }

  /** Two adjacent runs of one value, written as one. */
  function Merged(s: Bytes, p: int): (t: Bytes)
    requires 0 <= p && p + 1 < |s| && ValLen(s[p]) + ValLen(s[p + 1]) <= VAL_MAX_LEN
  {
    var u := s[p + 1 := ValByte(ValValue(s[p]), ValLen(s[p]) + ValLen(s[p + 1]))];
    u[..p] + u[p + 1..]
  }

  lemma MergeKeeps(s: Bytes, p: int)
    requires Boundary(s, p) && p + 1 < |s| && IsVal(s[p]) && IsVal(s[p + 1]) && ValValue(s[p]) == ValValue(s[p + 1])
    requires ValLen(s[p]) + ValLen(s[p + 1]) <= VAL_MAX_LEN
    ensures Whole(s) && Whole(Merged(s, p)) && Boundary(Merged(s, p), p) && Expand(Merged(s, p)) == Expand(s)
  {
    hide Whole, Expand, ValValue, ValByte, ValLen, Fill, Merged;
    var v, l1, l2 := ValValue(s[p]), ValLen(s[p]), ValLen(s[p + 1]);
    var one := [ValByte(v, l1 + l2)];
    var t := Merged(s, p);
    MergedIs(s, p);
    NextBoundary(s, p);
    NextBoundary(s, p + 1);
    AtBoundary(s, p);
    OneOp(one);
    Joins(one, s[p + 2..]);
    assert t[..p] == s[..p] && t[p..] == one + s[p + 2..];
    AtBoundary(t, p);
    FillsJoin(v, l1, l2, Expand(s[p + 2..]));
  }

  lemma MergedIs(s: Bytes, p: int)
    requires 0 <= p && p + 1 < |s| && ValLen(s[p]) + ValLen(s[p + 1]) <= VAL_MAX_LEN
    ensures Merged(s, p) == s[..p] + ([ValByte(ValValue(s[p]), ValLen(s[p]) + ValLen(s[p + 1]))] + s[p + 2..])
  {
  }

  lemma FillsJoin(v: int, m: int, n: int, rest: Vector)
    requires 0 <= m && 0 <= n
    ensures Fill(v, m) + (Fill(v, n) + rest) == Fill(v, m + n) + rest
  {
  }

  /** Merge equal neighbours over the next five opcodes; the registers stay as they are. */
  method MergeValues(s0: Bytes, from: int) returns (s: Bytes)
    requires Boundary(s0, from)
    ensures Whole(s0) && Whole(s) && Expand(s) == Expand(s0) && |s| <= |s0|
  {
    hide Whole, Expand, ValValue, ValLen, RunLen, RunValue, Merged;
    s := s0;
    AtBoundary(s0, from);
    var p, scanlen := from, 5;
    while p < |s| && scanlen > 0
      invariant Boundary(s, p) && Whole(s) && Expand(s) == Expand(s0) && |s| <= |s0|
      decreases scanlen
    {
      scanlen := scanlen - 1;
      NextBoundary(s, p);
      if IsXzero(s[p]) {
        p := p + 2;
      } else if IsZero(s[p]) {
        p := p + 1;
      } else if p + 1 < |s| && IsVal(s[p + 1]) && ValValue(s[p]) == ValValue(s[p + 1])
                && ValLen(s[p]) + ValLen(s[p + 1]) <= VAL_MAX_LEN {
        MergeKeeps(s, p);
        MergedIs(s, p);
        AtBoundary(Merged(s, p), p);
        s := Merged(s, p);
      } else {
        p := p + 1;
      }
    }
  }
}
