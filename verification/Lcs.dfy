/** The longest common subsequence of two strings and its match blocks (f1srv/lcs.go). */
module Lcs {
  import opened Bytes

  /** idx picks s out of a, left to right. */
  ghost predicate Embeds(s: Bytes, a: Bytes, idx: seq<nat>)
  {
    && |idx| == |s|
    && (forall k :: 0 <= k < |s| ==> idx[k] < |a| && a[idx[k]] == s[k])
    && (forall k, l :: 0 <= k < l < |s| ==> idx[k] < idx[l])
  }

  ghost predicate Subsequence(s: Bytes, a: Bytes)
  {
    exists idx :: Embeds(s, a, idx)
  }

  /** The recurrence the grid is filled by. */
  function Best(a: Bytes, b: Bytes, i: nat, j: nat): (n: nat)
    requires i <= |a| && j <= |b|
    decreases i + j
  {
    if i == 0 || j == 0 then 0
    else if a[i - 1] == b[j - 1] then Best(a, b, i - 1, j - 1) + 1
    else if Best(a, b, i - 1, j) >= Best(a, b, i, j - 1) then Best(a, b, i - 1, j)
    else Best(a, b, i, j - 1)
  }

  lemma Shorter(s: Bytes, a: Bytes, idx: seq<nat>, i: nat)
    requires s != [] && i > 0 && i <= |a| && Embeds(s, a[..i], idx)
    ensures var k := |s| - 1;
            && (idx[k] < i - 1 ==> Embeds(s, a[..i - 1], idx))
            && Embeds(s[..k], a[..i - 1], idx[..k]) && s[k] == a[idx[k]] && idx[k] <= i - 1
  {
    var k := |s| - 1;
    forall l | 0 <= l < k ensures idx[l] < i - 1 { assert idx[l] < idx[k]; }
  }

  /** No common subsequence of the prefixes is longer than the recurrence says. */
  lemma {:induction false} NoneLonger(a: Bytes, b: Bytes, i: nat, j: nat, s: Bytes, x: seq<nat>, y: seq<nat>)
    requires i <= |a| && j <= |b| && Embeds(s, a[..i], x) && Embeds(s, b[..j], y)
    ensures |s| <= Best(a, b, i, j)
    decreases i + j
  {
    hide Embeds;
    if s != [] {
      NonEmpty(s, a[..i], x);
      NonEmpty(s, b[..j], y);
      Shorter(s, a, x, i);
      Shorter(s, b, y, j);
      var k := |s| - 1;
      if a[i - 1] == b[j - 1] {
        NoneLonger(a, b, i - 1, j - 1, s[..k], x[..k], y[..k]);
      } else if x[k] < i - 1 {
        NoneLonger(a, b, i - 1, j, s, x, y);
      } else {
        NoneLonger(a, b, i, j - 1, s, x, y);
      }
    }
  }

  lemma NonEmpty(s: Bytes, a: Bytes, idx: seq<nat>)
    requires s != [] && Embeds(s, a, idx)
    ensures |idx| == |s| && |a| > 0
  {
    assert idx[0] < |a|;
  }

  lemma Longest(a: Bytes, b: Bytes, s: Bytes)
    requires Subsequence(s, a) && Subsequence(s, b)
    ensures |s| <= Best(a, b, |a|, |b|)
  {
    hide Best;
    var x :| Embeds(s, a, x);
    var y :| Embeds(s, b, y);
    assert a[..|a|] == a && b[..|b|] == b;
    NoneLonger(a, b, |a|, |b|, s, x, y);
  }

  /** Where row i, column j of the grid sits in the flat array. */
  function At(n: nat, i: nat, j: nat): (p: nat)
  {
    i * (n + 1) + j
  }

  /** A later row starts at least a row's width further on. */
  lemma {:induction false} RowGap(n: nat, i: nat, p: nat)
    requires i < p
    ensures At(n, i, 0) + n + 1 <= At(n, p, 0)
    decreases p
  {
    assert p * (n + 1) == (p - 1) * (n + 1) + (n + 1);
    if i < p - 1 {
      RowGap(n, i, p - 1);
    }
  }

  lemma AtRange(m: nat, n: nat, i: nat, j: nat)
    requires i <= m && j <= n
    ensures At(n, i, j) < (m + 1) * (n + 1)
  {
    RowGap(n, i, m + 1);
  }

  lemma AtInjective(n: nat, i: nat, j: nat, p: nat, q: nat)
    requires j <= n && q <= n && At(n, i, j) == At(n, p, q)
    ensures i == p && j == q
  {
    if i < p {
      RowGap(n, i, p);
    } else if p < i {
      RowGap(n, p, i);
    }
  }

  /** The grid holds the recurrence on the cells filled so far, row by row; row and column zero are zero. */
  ghost predicate Filled(dp: seq<int>, a: Bytes, b: Bytes, i: nat, j: nat)
  {
    && |dp| == (|a| + 1) * (|b| + 1)
    && (forall p: nat, q: nat :: p <= |a| && q <= |b| && (p < i || p == 0 || q == 0 || (p == i && q < j)) ==>
                                   At(|b|, p, q) < |dp| && dp[At(|b|, p, q)] == Best(a, b, p, q))
    && (forall p: nat, q: nat :: p <= |a| && q <= |b| ==> At(|b|, p, q) < |dp|)
  }

  lemma FillOne(dp: seq<int>, a: Bytes, b: Bytes, i: nat, j: nat)
    requires Filled(dp, a, b, i, j) && 1 <= i <= |a| && 1 <= j <= |b|
    ensures Filled(dp[At(|b|, i, j) := Best(a, b, i, j)], a, b, i, j + 1)
  {
    hide Best, At;
    forall p: nat, q: nat | p <= |a| && q <= |b| && At(|b|, p, q) == At(|b|, i, j) ensures p == i && q == j {
      AtInjective(|b|, p, q, i, j);
    }
  }

  lemma NextRow(dp: seq<int>, a: Bytes, b: Bytes, i: nat)
    requires Filled(dp, a, b, i, |b| + 1)
    ensures Filled(dp, a, b, i + 1, 1)
  {
    hide Best, At;
  }

  lemma Blank(dp: seq<int>, a: Bytes, b: Bytes)
    requires |dp| == (|a| + 1) * (|b| + 1) && forall k :: 0 <= k < |dp| ==> dp[k] == 0
    ensures Filled(dp, a, b, 1, 1)
  {
    forall p: nat, q: nat | p <= |a| && q <= |b| ensures At(|b|, p, q) < |dp| { AtRange(|a|, |b|, p, q); }
    hide At;
    assert forall p: nat, q: nat :: p <= |a| && q <= |b| && (p == 0 || q == 0) ==> Best(a, b, p, q) == 0;
  }

  /** The dynamic program. */
  method FillGrid(a: Bytes, b: Bytes) returns (dp: array<int>)
    ensures fresh(dp) && Filled(dp[..], a, b, |a| + 1, 0)
  {
    hide Filled, Best;
    var m, n := |a|, |b|;
    var size := (m + 1) * (n + 1);
    assert size >= 0;
    dp := new int[size](_ => 0);
    Blank(dp[..], a, b);
    var i := 1;
    while i <= m
      invariant 1 <= i <= m + 1 && Filled(dp[..], a, b, i, 1)
      modifies dp
    {
      var j := 1;
      while j <= n
        invariant 1 <= j <= n + 1 && Filled(dp[..], a, b, i, j)
        modifies dp
      {
        CellIs(dp[..], a, b, i, j);
        ghost var was := dp[..];
        if a[i - 1] == b[j - 1] {
          dp[At(n, i, j)] := dp[At(n, i - 1, j - 1)] + 1;
        } else if dp[At(n, i - 1, j)] >= dp[At(n, i, j - 1)] {
          dp[At(n, i, j)] := dp[At(n, i - 1, j)];
        } else {
          dp[At(n, i, j)] := dp[At(n, i, j - 1)];
        }
        assert dp[..] == was[At(n, i, j) := Best(a, b, i, j)];
        FillOne(was, a, b, i, j);
        j := j + 1;
      }
      NextRow(dp[..], a, b, i);
      i := i + 1;
    }
    AllFilled(dp[..], a, b);
  }

  lemma AllFilled(dp: seq<int>, a: Bytes, b: Bytes)
    requires Filled(dp, a, b, |a| + 1, 1)
    ensures Filled(dp, a, b, |a| + 1, 0)
  {
  }

  /** The three neighbours a cell is filled from. */
  lemma CellIs(dp: seq<int>, a: Bytes, b: Bytes, i: nat, j: nat)
    requires Filled(dp, a, b, i, j) && 1 <= i <= |a| && 1 <= j <= |b|
    ensures var n := |b|;
            && At(n, i, j) < |dp| && At(n, i - 1, j - 1) < |dp| && At(n, i - 1, j) < |dp| && At(n, i, j - 1) < |dp|
            && dp[At(n, i - 1, j - 1)] == Best(a, b, i - 1, j - 1)
            && dp[At(n, i - 1, j)] == Best(a, b, i - 1, j) && dp[At(n, i, j - 1)] == Best(a, b, i, j - 1)
            && Best(a, b, i, j) == if a[i - 1] == b[j - 1] then Best(a, b, i - 1, j - 1) + 1
                                   else if Best(a, b, i - 1, j) >= Best(a, b, i, j - 1) then Best(a, b, i - 1, j)
                                   else Best(a, b, i, j - 1)
  {
    hide At;
  }

  /** A run of equal bytes along a diagonal; ends are inclusive. */
  datatype Match = Match(aStart: int, aEnd: int, bStart: int, bEnd: int, length: int)

  predicate Diagonal(a: Bytes, b: Bytes, m: Match)
  {
    && 0 <= m.aStart <= m.aEnd < |a| && 0 <= m.bStart <= m.bEnd < |b|
    && m.length == m.aEnd - m.aStart + 1 == m.bEnd - m.bStart + 1
    && a[m.aStart..m.aEnd + 1] == b[m.bStart..m.bEnd + 1]
  }

  /** The blocks come from the ends of the strings toward their starts, and no two could be one. */
  predicate Descending(ms: seq<Match>)
  {
    forall t, u :: 0 <= t < u < |ms| ==> ms[u].aEnd < ms[t].aStart && ms[u].bEnd < ms[t].bStart
  }

  predicate Apart(ms: seq<Match>)
  {
    forall t :: 0 <= t < |ms| - 1 ==> !(ms[t + 1].aEnd + 1 == ms[t].aStart && ms[t + 1].bEnd + 1 == ms[t].bStart)
  }

  predicate InA(a: Bytes, ms: seq<Match>)
  {
    forall t :: 0 <= t < |ms| ==> 0 <= ms[t].aStart <= ms[t].aEnd < |a|
  }

  /** The bytes of the blocks, from the start of the string on. */
  function Spelled(a: Bytes, ms: seq<Match>): (s: Bytes)
    requires InA(a, ms)
  {
    if ms == [] then []
    else
      var k := |ms| - 1;
      a[ms[k].aStart..ms[k].aEnd + 1] + Spelled(a, ms[..k])
  }

  function Lengths(ms: seq<Match>): (n: int)
  {
    if ms == [] then 0 else Lengths(ms[..|ms| - 1]) + ms[|ms| - 1].length
  }

  /** What the blocks found so far satisfy, from row i and column j up. */
  ghost predicate Blocks(a: Bytes, b: Bytes, ms: seq<Match>, i: int, j: int)
  {
    && InA(a, ms) && (forall t :: 0 <= t < |ms| ==> Diagonal(a, b, ms[t]))
    && Descending(ms) && Apart(ms)
    && (ms != [] ==> i <= ms[|ms| - 1].aStart && j <= ms[|ms| - 1].bStart)
  }

  /** The blocks after one more matched pair. */
  function Extended(ms: seq<Match>, ai: int, bi: int): (ms': seq<Match>)
  {
    if ms == [] || ms[|ms| - 1].aStart != ai + 1 || ms[|ms| - 1].bStart != bi + 1 then ms + [Match(ai, ai, bi, bi, 1)]
    else
      var k := |ms| - 1;
      ms[k := ms[k].(aStart := ai, bStart := bi, length := ms[k].length + 1)]
  }

  lemma OneDiagonal(a: Bytes, b: Bytes, ai: int, bi: int)
    requires 0 <= ai < |a| && 0 <= bi < |b| && a[ai] == b[bi]
    ensures Diagonal(a, b, Match(ai, ai, bi, bi, 1))
  {
    assert a[ai..ai + 1] == [a[ai]] && b[bi..bi + 1] == [b[bi]];
  }

  lemma GrownDiagonal(a: Bytes, b: Bytes, m: Match)
    requires Diagonal(a, b, m) && m.aStart > 0 && m.bStart > 0 && a[m.aStart - 1] == b[m.bStart - 1]
    ensures Diagonal(a, b, m.(aStart := m.aStart - 1, bStart := m.bStart - 1, length := m.length + 1))
  {
    assert a[m.aStart - 1..m.aEnd + 1] == [a[m.aStart - 1]] + a[m.aStart..m.aEnd + 1];
    assert b[m.bStart - 1..m.bEnd + 1] == [b[m.bStart - 1]] + b[m.bStart..m.bEnd + 1];
  }

  lemma NewDescends(ms: seq<Match>, m: Match)
    requires Descending(ms) && Apart(ms) && m.aStart <= m.aEnd
    requires ms != [] ==> m.aEnd < ms[|ms| - 1].aStart && m.bEnd < ms[|ms| - 1].bStart
                          && !(m.aEnd + 1 == ms[|ms| - 1].aStart && m.bEnd + 1 == ms[|ms| - 1].bStart)
                          && forall t :: 0 <= t < |ms| ==> ms[t].aStart <= ms[t].aEnd && ms[t].bStart <= ms[t].bEnd
    ensures Descending(ms + [m]) && Apart(ms + [m])
  {
    var ms' := ms + [m];
    forall t, u | 0 <= t < u < |ms'| ensures ms'[u].aEnd < ms'[t].aStart && ms'[u].bEnd < ms'[t].bStart {
      if u == |ms| && t < |ms| - 1 { assert ms[|ms| - 1].aEnd < ms[t].aStart && ms[|ms| - 1].bEnd < ms[t].bStart; }
    }
  }

  lemma LastDescends(ms: seq<Match>, m: Match)
    requires Descending(ms) && Apart(ms) && ms != [] && m.aEnd == ms[|ms| - 1].aEnd && m.bEnd == ms[|ms| - 1].bEnd
    ensures Descending(ms[|ms| - 1 := m]) && Apart(ms[|ms| - 1 := m])
  {
  }

  lemma ExtendNew(a: Bytes, b: Bytes, ms: seq<Match>, ai: int, bi: int)
    requires 0 <= ai < |a| && 0 <= bi < |b| && a[ai] == b[bi] && Blocks(a, b, ms, ai + 1, bi + 1)
    requires ms == [] || ms[|ms| - 1].aStart != ai + 1 || ms[|ms| - 1].bStart != bi + 1
    ensures Blocks(a, b, Extended(ms, ai, bi), ai, bi) && InA(a, ms) && InA(a, Extended(ms, ai, bi))
    ensures Spelled(a, Extended(ms, ai, bi)) == [a[ai]] + Spelled(a, ms) && Lengths(Extended(ms, ai, bi)) == Lengths(ms) + 1
  {
    var one := Match(ai, ai, bi, bi, 1);
    var ms' := ms + [one];
    assert ms'[..|ms|] == ms && a[ai..ai + 1] == [a[ai]];
    OneDiagonal(a, b, ai, bi);
    assert forall t :: 0 <= t < |ms| ==> Diagonal(a, b, ms[t]) && ms[t].aStart <= ms[t].aEnd && ms[t].bStart <= ms[t].bEnd;
    hide Diagonal, Descending, Apart;
    NewDescends(ms, one);
  }

  lemma ExtendLast(a: Bytes, b: Bytes, ms: seq<Match>, ai: int, bi: int)
    requires 0 <= ai < |a| && 0 <= bi < |b| && a[ai] == b[bi] && Blocks(a, b, ms, ai + 1, bi + 1)
    requires ms != [] && ms[|ms| - 1].aStart == ai + 1 && ms[|ms| - 1].bStart == bi + 1
    ensures Blocks(a, b, Extended(ms, ai, bi), ai, bi) && InA(a, ms) && InA(a, Extended(ms, ai, bi))
    ensures Spelled(a, Extended(ms, ai, bi)) == [a[ai]] + Spelled(a, ms) && Lengths(Extended(ms, ai, bi)) == Lengths(ms) + 1
  {
    hide Descending, Apart, Diagonal, Spelled, Lengths;
    var k := |ms| - 1;
    var last, m := ms[k], ms[k].(aStart := ai, bStart := bi, length := ms[k].length + 1);
    GrownDiagonal(a, b, last);
    LastDescends(ms, m);
    DiagonalIn(a, b, m);
    LastSpelled(a, ms, m);
  }

  lemma DiagonalIn(a: Bytes, b: Bytes, m: Match)
    requires Diagonal(a, b, m)
    ensures 0 <= m.aStart <= m.aEnd < |a|
  {
  }

  lemma LastSpelled(a: Bytes, ms: seq<Match>, m: Match)
    requires ms != [] && InA(a, ms) && m.aEnd == ms[|ms| - 1].aEnd && m.aStart == ms[|ms| - 1].aStart - 1 >= 0
    requires m.length == ms[|ms| - 1].length + 1
    ensures InA(a, ms[|ms| - 1 := m]) && Spelled(a, ms[|ms| - 1 := m]) == [a[m.aStart]] + Spelled(a, ms)
    ensures Lengths(ms[|ms| - 1 := m]) == Lengths(ms) + 1
  {
    hide Spelled, Lengths;
    var k := |ms| - 1;
    var ms' := ms[k := m];
    assert ms'[..k] == ms[..k];
    SpelledLast(a, ms);
    SpelledLast(a, ms');
    assert a[m.aStart..m.aEnd + 1] == [a[m.aStart]] + a[m.aStart + 1..m.aEnd + 1];
    GrownSpelled(a[m.aStart], a[m.aStart + 1..m.aEnd + 1], Spelled(a, ms[..k]));
  }

  lemma SpelledLast(a: Bytes, ms: seq<Match>)
    requires ms != [] && InA(a, ms)
    ensures var k := |ms| - 1;
            && InA(a, ms[..k]) && Spelled(a, ms) == a[ms[k].aStart..ms[k].aEnd + 1] + Spelled(a, ms[..k])
            && Lengths(ms) == Lengths(ms[..k]) + ms[k].length
  {
  }

  lemma GrownSpelled(x: Byte, block: Bytes, rest: Bytes)
    ensures ([x] + block) + rest == [x] + (block + rest)
  {
  }

  lemma Extend(a: Bytes, b: Bytes, ms: seq<Match>, ai: int, bi: int)
    requires 0 <= ai < |a| && 0 <= bi < |b| && a[ai] == b[bi] && Blocks(a, b, ms, ai + 1, bi + 1)
    ensures Blocks(a, b, Extended(ms, ai, bi), ai, bi) && InA(a, ms) && InA(a, Extended(ms, ai, bi))
    ensures Spelled(a, Extended(ms, ai, bi)) == [a[ai]] + Spelled(a, ms) && Lengths(Extended(ms, ai, bi)) == Lengths(ms) + 1
  {
    hide Blocks, Extended, Spelled, Lengths;
    if ms == [] || ms[|ms| - 1].aStart != ai + 1 || ms[|ms| - 1].bStart != bi + 1 {
      ExtendNew(a, b, ms, ai, bi);
    } else {
      ExtendLast(a, b, ms, ai, bi);
    }
  }

  lemma BlocksLess(a: Bytes, b: Bytes, ms: seq<Match>, i: int, j: int, i': int, j': int)
    requires Blocks(a, b, ms, i, j) && i' <= i && j' <= j
    ensures Blocks(a, b, ms, i', j')
  {
  }

  lemma Start(a: Bytes, b: Bytes)
    ensures Embeds([], a, []) && Embeds([], b, []) && Blocks(a, b, [], |a|, |b|) && InA(a, [])
    ensures Spelled(a, []) == [] && Lengths([]) == 0
  {
  }

  /** Any cell of the finished grid. */
  lemma GridIs(dp: seq<int>, a: Bytes, b: Bytes, i: nat, j: nat)
    requires Filled(dp, a, b, |a| + 1, 0) && 1 <= i <= |a| && 1 <= j <= |b|
    ensures var n := |b|;
            && At(n, i - 1, j) < |dp| && At(n, i, j - 1) < |dp|
            && dp[At(n, i - 1, j)] == Best(a, b, i - 1, j) && dp[At(n, i, j - 1)] == Best(a, b, i, j - 1)
            && Best(a, b, i, j) == if a[i - 1] == b[j - 1] then Best(a, b, i - 1, j - 1) + 1
                                   else if Best(a, b, i - 1, j) >= Best(a, b, i, j - 1) then Best(a, b, i - 1, j)
                                   else Best(a, b, i, j - 1)
  {
    hide At;
  }

  /** One more byte at the front of an embedded string. */
  lemma EmbedFront(s: Bytes, a: Bytes, idx: seq<nat>, i: nat)
    requires Embeds(s, a, idx) && i < |a| && (idx != [] ==> i < idx[0])
    ensures Embeds([a[i]] + s, a, [i] + idx)
  {
  }

  /** Walk back through the grid, collecting the string from its end and the blocks as they close. */
  method Backtrack(dp: array<int>, a: Bytes, b: Bytes) returns (lcs: Bytes, matches: seq<Match>, ghost x: seq<nat>, ghost y: seq<nat>)
    requires Filled(dp[..], a, b, |a| + 1, 0)
    ensures |lcs| == Best(a, b, |a|, |b|) && Embeds(lcs, a, x) && Embeds(lcs, b, y)
    ensures Blocks(a, b, matches, 0, 0) && InA(a, matches) && Spelled(a, matches) == lcs && Lengths(matches) == |lcs|
  {
    hide Filled, Best, Embeds, Blocks, Spelled, Lengths, Extended;
    var i, j := |a|, |b|;
    lcs, matches, x, y := [], [], [], [];
    Start(a, b);
    while i > 0 && j > 0
      invariant 0 <= i <= |a| && 0 <= j <= |b|
      invariant Best(a, b, i, j) + |lcs| == Best(a, b, |a|, |b|)
      invariant Embeds(lcs, a, x) && Embeds(lcs, b, y) && (x != [] ==> i <= x[0]) && (y != [] ==> j <= y[0])
      invariant Blocks(a, b, matches, i, j) && InA(a, matches)
      invariant Spelled(a, matches) == lcs && Lengths(matches) == |lcs|
      decreases i + j
    {
      GridIs(dp[..], a, b, i, j);
      if a[i - 1] == b[j - 1] {
        EmbedFront(lcs, a, x, i - 1);
        EmbedFront(lcs, b, y, j - 1);
        Extend(a, b, matches, i - 1, j - 1);
        lcs := [a[i - 1]] + lcs;
        x, y := [i - 1] + x, [j - 1] + y;
        matches := Extended(matches, i - 1, j - 1);
        i, j := i - 1, j - 1;
      } else if dp[At(|b|, i - 1, j)] >= dp[At(|b|, i, j - 1)] {
        BlocksLess(a, b, matches, i, j, i - 1, j);
        i := i - 1;
      } else {
        BlocksLess(a, b, matches, i, j, i, j - 1);
        j := j - 1;
      }
    }
    BlocksLess(a, b, matches, i, j, 0, 0);
    NoneLeft(a, b, i, j);
  }

  lemma NoneLeft(a: Bytes, b: Bytes, i: nat, j: nat)
    requires i <= |a| && j <= |b| && (i == 0 || j == 0)
    ensures Best(a, b, i, j) == 0
  {
  }

  /** computeLCS: a longest common subsequence, its length, and the blocks that spell it out. */
  method ComputeLcs(a: Bytes, b: Bytes) returns (length: int, lcs: Bytes, matches: seq<Match>)
    ensures length == |lcs| && Subsequence(lcs, a) && Subsequence(lcs, b)
    ensures forall s :: Subsequence(s, a) && Subsequence(s, b) ==> |s| <= length
    ensures (forall t :: 0 <= t < |matches| ==> Diagonal(a, b, matches[t])) && Descending(matches) && Apart(matches)
    ensures InA(a, matches) && Spelled(a, matches) == lcs && Lengths(matches) == length
  {
    hide Filled, Best, Spelled, Lengths, Embeds;
    ghost var x, y;
    if |a| == 0 || |b| == 0 {
      length, lcs, matches := 0, [], [];
      Start(a, b);
      x, y := [], [];
      NoneLeft(a, b, |a|, |b|);
    } else {
      var dp := FillGrid(a, b);
      lcs, matches, x, y := Backtrack(dp, a, b);
      length := |lcs|;
    }
    assert Embeds(lcs, a, x) && Embeds(lcs, b, y);
    forall s | Subsequence(s, a) && Subsequence(s, b) ensures |s| <= length { Longest(a, b, s); }
  }
}
